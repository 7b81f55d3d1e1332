/**
 String literals of cJSON: the escaping printer (print_string_ptr), the two passes of
 parse_string, and the UTF-16 to UTF-8 conversion between them.
 */
module CJsonString {
  import opened Text
  import opened Digits
  import opened CJsonValue

  // ---- UTF-8 (RFC 3629 section 3) and UTF-16 (RFC 2781 section 2) ----

  predicate Surrogate(u: nat) { 0xD800 <= u <= 0xDFFF }
  predicate High(u: nat) { 0xD800 <= u <= 0xDBFF }
  predicate Low(u: nat) { 0xDC00 <= u <= 0xDFFF }

  /** The bytes utf16_literal_to_utf8 writes for a code point. */
  function Utf8(cp: nat): (r: Bytes)
    requires cp <= 0x10FFFF
    ensures 1 <= |r| <= 4 && (cp <= 0xFFFF ==> |r| <= 3)
  {
    if cp < 0x80 then [cp]
    else if cp < 0x800 then [0xC0 + cp / 64, 0x80 + cp % 64]
    else if cp < 0x10000 then [0xE0 + cp / 4096, 0x80 + cp / 64 % 64, 0x80 + cp % 64]
    else [0xF0 + cp / 262144, 0x80 + cp / 4096 % 64, 0x80 + cp / 64 % 64, 0x80 + cp % 64]
  }

  predicate Continuation(b: byte) { 0x80 <= b < 0xC0 }

  function Six(b: byte): nat
    requires Continuation(b)
  {
    b - 0x80
  }

  /** A strict reader for the table of RFC 3629 section 3: overlong forms, surrogates and
      anything above 0x10FFFF are rejected. */
  function DecodeUtf8(b: Bytes): Option<nat> {
    if |b| == 1 && b[0] < 0x80 then
      Some(b[0])
    else if |b| == 2 && 0xC2 <= b[0] < 0xE0 && Continuation(b[1]) then
      Some((b[0] as int - 0xC0) * 64 + Six(b[1]))
    else if |b| == 3 && 0xE0 <= b[0] < 0xF0 && Continuation(b[1]) && Continuation(b[2]) then
      var cp := (b[0] as int - 0xE0) * 4096 + Six(b[1]) * 64 + Six(b[2]);
      if cp < 0x800 || Surrogate(cp) then None else Some(cp)
    else if |b| == 4 && 0xF0 <= b[0] < 0xF5
            && Continuation(b[1]) && Continuation(b[2]) && Continuation(b[3]) then
      var cp := (b[0] as int - 0xF0) * 262144 + Six(b[1]) * 4096 + Six(b[2]) * 64 + Six(b[3]);
      if cp < 0x10000 || cp > 0x10FFFF then None else Some(cp)
    else None
  }

  lemma TwoBytes(cp: nat)
    requires 0x80 <= cp < 0x800
    ensures DecodeUtf8(Utf8(cp)) == Some(cp)
  {
  }

  lemma ThreeBytes(cp: nat)
    requires 0x800 <= cp < 0x10000 && !Surrogate(cp)
    ensures DecodeUtf8(Utf8(cp)) == Some(cp)
  {
    assert cp / 64 == cp / 4096 * 64 + cp / 64 % 64;
    assert cp == cp / 4096 * 4096 + cp / 64 % 64 * 64 + cp % 64;
  }

  lemma FourBytes(cp: nat)
    requires 0x10000 <= cp <= 0x10FFFF
    ensures DecodeUtf8(Utf8(cp)) == Some(cp)
  {
    assert cp / 64 == cp / 4096 * 64 + cp / 64 % 64;
    assert cp / 4096 == cp / 262144 * 64 + cp / 4096 % 64;
    assert cp == cp / 262144 * 262144 + cp / 4096 % 64 * 4096 + cp / 64 % 64 * 64 + cp % 64;
  }

  lemma Utf8Decodes(cp: nat)
    requires cp <= 0x10FFFF && !Surrogate(cp)
    ensures DecodeUtf8(Utf8(cp)) == Some(cp)
  {
    if cp >= 0x80 {
      hide DecodeUtf8, Utf8;
      if cp < 0x800 {
        TwoBytes(cp);
      } else if cp < 0x10000 {
        ThreeBytes(cp);
      } else {
        FourBytes(cp);
      }
    }
  }

  lemma Digits64(a: nat, b: nat, c: nat, d: nat)
    requires b < 64 && c < 64 && d < 64
    ensures var n := a * 262144 + b * 4096 + c * 64 + d;
      n / 262144 == a && n / 4096 % 64 == b && n / 64 % 64 == c && n % 64 == d
      && (a == 0 ==> n / 4096 == b)
  {
    var n := a * 262144 + b * 4096 + c * 64 + d;
    assert n / 64 == a * 4096 + b * 64 + c;
    assert n / 4096 == a * 64 + b;
  }

  /** Nothing but Utf8 produces what the strict reader accepts. */
  lemma Utf8Complete(b: Bytes)
    requires DecodeUtf8(b).Some?
    ensures DecodeUtf8(b).value <= 0x10FFFF && !Surrogate(DecodeUtf8(b).value)
    ensures Utf8(DecodeUtf8(b).value) == b
  {
    if |b| == 3 {
      ThreeComplete(b);
    } else if |b| == 4 {
      FourComplete(b);
    }
  }

  lemma ThreeComplete(b: Bytes)
    requires |b| == 3 && DecodeUtf8(b).Some?
    ensures DecodeUtf8(b).value <= 0xFFFF && Utf8(DecodeUtf8(b).value) == b
  {
    Digits64(0, b[0] - 0xE0, Six(b[1]), Six(b[2]));
    assert Utf8(DecodeUtf8(b).value) == [b[0], b[1], b[2]];
  }

  lemma FourComplete(b: Bytes)
    requires |b| == 4 && DecodeUtf8(b).Some?
    ensures DecodeUtf8(b).value <= 0x10FFFF && Utf8(DecodeUtf8(b).value) == b
  {
    Digits64(b[0] - 0xF0, Six(b[1]), Six(b[2]), Six(b[3]));
    assert Utf8(DecodeUtf8(b).value) == [b[0], b[1], b[2], b[3]];
  }

  /** The code point of a surrogate pair, as utf16_literal_to_utf8 combines it. */
  function Combine(hi: nat, lo: nat): (cp: nat)
    requires High(hi) && Low(lo)
    ensures 0x10000 <= cp <= 0x10FFFF
  {
    0x10000 + hi % 1024 * 1024 + lo % 1024
  }

  function HighOf(cp: nat): nat { 0xD800 + (cp - 0x10000) / 1024 }
  function LowOf(cp: nat): nat { 0xDC00 + (cp - 0x10000) % 1024 }

  lemma SurrogatePairs(cp: nat, hi: nat, lo: nat)
    requires 0x10000 <= cp <= 0x10FFFF && High(hi) && Low(lo)
    ensures High(HighOf(cp)) && Low(LowOf(cp)) && Combine(HighOf(cp), LowOf(cp)) == cp
    ensures HighOf(Combine(hi, lo)) == hi && LowOf(Combine(hi, lo)) == lo
  {
  }

  // ---- hexadecimal digits ----

  function HexDigit(c: byte): Option<nat> {
    if 48 <= c <= 57 then Some(c - 48)
    else if 65 <= c <= 70 then Some(10 + c - 65)
    else if 97 <= c <= 102 then Some(10 + c - 97)
    else None
  }

  predicate IsHex4(h: Bytes): (b: bool)
    ensures b ==> |h| == 4
  {
    |h| == 4 && forall i | 0 <= i < 4 :: HexDigit(h[i]).Some?
  }

  function HexValue(h: Bytes): (u: nat)
    requires IsHex4(h)
    ensures u < 0x10000
  {
    HexDigit(h[0]).value * 4096 + HexDigit(h[1]).value * 256 + HexDigit(h[2]).value * 16 + HexDigit(h[3]).value
  }

  /** parse_hex4: a bad digit makes the whole number 0, and the caller carries on. */
  function Hex4(h: Bytes): (u: nat)
    requires |h| == 4
    ensures u < 0x10000
  {
    if IsHex4(h) then HexValue(h) else 0
  }

  // ---- pass two: one turn of the unescaping loop ----

  datatype Turn = Turn(consumed: nat, written: Bytes) | Stuck

  /** utf16_literal_to_utf8 on the remaining body of the literal. */
  function Utf16Literal(b: Bytes): (t: Turn)
    ensures t.Turn? ==> |b| >= t.consumed && (t.consumed == 6 || t.consumed == 12)
    ensures t.Turn? ==> 1 <= |t.written| <= 4 && (t.consumed == 6 ==> |t.written| <= 3)
  {
    if |b| < 6 then Stuck
    else
      var first := Hex4(b[2..6]);
      if Low(first) then Stuck
      else if !High(first) then Turn(6, Utf8(first))
      else if |b| < 12 || b[6] != BACKSLASH || b[7] != 117 then Stuck
      else
        var second := Hex4(b[8..12]);
        if !Low(second) then Stuck else Turn(12, Utf8(Combine(first, second)))
  }

  function ShortEscape(c: byte): Option<byte> {
    if c == 98 then Some(BACKSPACE)
    else if c == 102 then Some(FORMFEED)
    else if c == 110 then Some(NEWLINE)
    else if c == 114 then Some(RETURN)
    else if c == 116 then Some(TAB)
    else if c == QUOTE || c == BACKSLASH || c == SLASH then Some(c)
    else None
  }

  /** A backslash in the very last place reads the closing quote as its second character. */
  function UnescapeTurn(b: Bytes): (t: Turn)
    requires b != []
    ensures t.Turn? ==> 1 <= t.consumed <= |b|
  {
    if b[0] != BACKSLASH then Turn(1, [b[0]])
    else if |b| == 1 then Turn(1, [QUOTE])
    else if b[1] == 117 then Utf16Literal(b)
    else match ShortEscape(b[1])
      case Some(c) => Turn(2, [c])
      case None => Stuck
  }

  datatype Unescaped = Done(bytes: Bytes) | Bad(rest: Bytes)

  function Prepend(w: Bytes, u: Unescaped): Unescaped {
    if u.Done? then Done(w + u.bytes) else u
  }

  /** The whole of pass two over the bytes between the quotes. */
  function Unescape(b: Bytes): (u: Unescaped)
    ensures u.Bad? ==> |u.rest| <= |b|
    decreases |b|
  {
    if b == [] then Done([])
    else match UnescapeTurn(b)
      case Stuck => Bad(b)
      case Turn(n, w) => Prepend(w, Unescape(b[n..]))
  }

  // ---- pass one: find the closing quote ----

  function Shift(n: nat, k: Option<nat>): Option<nat> {
    if k.Some? then Some(n + k.value) else None
  }

  function ClosingQuote(s: Bytes): (k: Option<nat>)
    ensures k.Some? ==> k.value < |s| && s[k.value] == QUOTE
    decreases |s|
  {
    if s == [] then None
    else if s[0] == QUOTE then Some(0)
    else if s[0] != BACKSLASH then Shift(1, ClosingQuote(s[1..]))
    else if |s| == 1 then None
    else Shift(2, ClosingQuote(s[2..]))
  }

  /** Whether pass one sees position n of b as the second half of an escape, given that it
      sees position 0 that way iff e. */
  function Inside(b: Bytes, e: bool, n: nat): bool
    requires n <= |b|
  {
    if n == 0 then e else Inside(b[1..], !e && b[0] == BACKSLASH, n - 1)
  }

  /** Bytes of b that pass one does not count as skipped. */
  function Room(b: Bytes, e: bool): (r: nat)
    ensures r <= |b|
  {
    if b == [] then 0
    else if !e && b[0] == BACKSLASH then Room(b[1..], true)
    else 1 + Room(b[1..], false)
  }

  lemma {:induction false} RoomSplit(b: Bytes, e: bool, n: nat)
    requires n <= |b|
    ensures Room(b, e) == Room(b[..n], e) + Room(b[n..], Inside(b, e, n))
    ensures Inside(b, e, |b|) == Inside(b[n..], Inside(b, e, n), |b| - n)
  {
    if n == 0 {
      assert b[n..] == b;
    } else {
      RoomSplit(b[1..], !e && b[0] == BACKSLASH, n - 1);
      assert b[1..][n - 1..] == b[n..] && b[1..][..n - 1] == b[..n][1..];
    }
  }

  /** Two escapes of pass one never start on neighbouring bytes. */
  lemma {:induction false} RoomHalf(b: Bytes, e: bool)
    ensures 2 * Room(b, e) >= |b| - (if e then 0 else 1)
    ensures |b| > 0 && !e && b[0] != BACKSLASH ==> 2 * Room(b, e) >= |b|
    ensures |b| % 2 == 0 ==> 2 * Room(b, e) >= |b|
    decreases |b|
  {
    if b != [] {
      RoomHalf(b[1..], !e && b[0] == BACKSLASH);
    }
  }

  /** One turn of pass two never writes more than pass one reserved for the bytes it consumes,
      even where the two passes cut the text into escapes differently. */
  lemma TurnFits(b: Bytes, e: bool)
    requires b != [] && UnescapeTurn(b).Turn? && !Inside(b, e, |b|)
    ensures var t := UnescapeTurn(b);
      |t.written| + Room(b[t.consumed..], Inside(b, e, t.consumed)) <= Room(b, e)
      && !Inside(b[t.consumed..], Inside(b, e, t.consumed), |b| - t.consumed)
  {
    var n := UnescapeTurn(b).consumed;
    RoomSplit(b, e, n);
    RoomHalf(b[..n], e);
    if |b| == 1 {
      assert b[1..] == [];
      assert Inside(b, e, 1) == Inside(b[1..], !e && b[0] == BACKSLASH, 0);
    }
  }

  /** For every body pass one delimits, pass two stays inside the estimate. */
  lemma {:induction false} OutputFits(b: Bytes, e: bool)
    requires !Inside(b, e, |b|)
    ensures Unescape(b).Done? ==> |Unescape(b).bytes| <= Room(b, e)
    decreases |b|
  {
    if b != [] && UnescapeTurn(b).Turn? {
      TurnFits(b, e);
      var n := UnescapeTurn(b).consumed;
      OutputFits(b[n..], Inside(b, e, n));
    }
  }

  // ---- parse_string on the suffix that starts at the cursor ----

  function ParseString(s: Bytes): (p: Parsed<Bytes>)
    requires s != []
    ensures |p.rest| < |s|
    ensures p.Ok? && Terminated(s) ==> Terminated(p.rest)
  {
    if s[0] != QUOTE then Fail(s[1..])
    else match ClosingQuote(s[1..])
      case None => Fail(s[1..])
      case Some(k) => Unquoted(s, k)
  }

  /** What pass two makes of the literal whose closing quote pass one has found. */
  function Unquoted(s: Bytes, k: nat): (p: Parsed<Bytes>)
    requires k + 1 < |s|
    ensures |p.rest| < |s|
  {
    match Unescape(s[1..1 + k])
    case Done(bytes) => Ok(bytes, s[k + 2..])
    case Bad(rest) => Fail(s[1 + k - |rest|..])
  }

  /** A string between quotes: the closing quote alone decides how far parse_string reads. */
  lemma StringRead(body: Bytes, r: Bytes)
    requires ClosingQuote(body + ([QUOTE] + r)) == Some(|body|)
    ensures ParseString([QUOTE] + (body + ([QUOTE] + r))).Ok? <==> Unescape(body).Done?
    ensures Unescape(body).Done? ==> ParseString([QUOTE] + (body + ([QUOTE] + r))) == Ok(Unescape(body).bytes, r)
  {
    hide ClosingQuote, Unescape;
    var s := [QUOTE] + (body + ([QUOTE] + r));
    assert s[1..] == body + ([QUOTE] + r);
    assert s[1..1 + |body|] == body && s[|body| + 2..] == r;
  }

  /** Pass one delimits a body that does not end inside an escape. */
  lemma {:induction false} ClosingOutside(s: Bytes)
    requires ClosingQuote(s).Some?
    ensures !Inside(s[..ClosingQuote(s).value], false, ClosingQuote(s).value)
    decreases |s|
  {
    var k := ClosingQuote(s).value;
    if s[0] != QUOTE {
      var n := if s[0] == BACKSLASH then 2 else 1;
      ClosingOutside(s[n..]);
      assert s[..k][n..] == s[n..][..k - n];
      if n == 2 {
        assert s[..k][1..][1..] == s[n..][..k - n];
      }
    }
  }

  /** Two-pass agreement: on success the output, its terminator included, fits the buffer pass
      one sized (content bytes + 1 - skipped + 1), and the cursor is just past the quote. */
  lemma TwoPasses(s: Bytes)
    requires s != [] && ParseString(s).Ok?
    ensures exists k | 0 <= k < |s| - 1 ::
      ClosingQuote(s[1..]) == Some(k) && s[k + 1] == QUOTE
      && ParseString(s).rest == s[k + 2..]
      && |ParseString(s).value| <= Room(s[1..1 + k], false) <= k
  {
    var k := ClosingQuote(s[1..]).value;
    ClosingOutside(s[1..]);
    assert s[1..][..k] == s[1..1 + k];
    OutputFits(s[1..1 + k], false);
  }

  // ---- well-formed literals (RFC 8259 section 7) ----

  datatype Token =
    | Raw(b: byte)
    | Short(c: byte)
    | Unit(h: Bytes)
    | Pair(hi: Bytes, lo: Bytes)

  predicate WellFormed(t: Token) {
    match t
    case Raw(b) => b != QUOTE && b != BACKSLASH
    case Short(c) => ShortEscape(c).Some?
    case Unit(h) => IsHex4(h) && !Surrogate(HexValue(h))
    case Pair(hi, lo) => IsHex4(hi) && IsHex4(lo) && High(HexValue(hi)) && Low(HexValue(lo))
  }

  function TokenText(t: Token): (r: Bytes)
    ensures r != []
  {
    match t
    case Raw(b) => [b]
    case Short(c) => [BACKSLASH, c]
    case Unit(h) => [BACKSLASH, 117] + h
    case Pair(hi, lo) => [BACKSLASH, 117] + (hi + ([BACKSLASH, 117] + lo))
  }

  function Meaning(t: Token): Bytes
    requires WellFormed(t)
  {
    match t
    case Raw(b) => [b]
    case Short(c) => [ShortEscape(c).value]
    case Unit(h) => Utf8(HexValue(h))
    case Pair(hi, lo) => Utf8(Combine(HexValue(hi), HexValue(lo)))
  }

  function LiteralText(ts: seq<Token>): Bytes {
    if ts == [] then [] else TokenText(ts[0]) + LiteralText(ts[1..])
  }

  function LiteralMeaning(ts: seq<Token>): Bytes
    requires forall t <- ts :: WellFormed(t)
  {
    if ts == [] then [] else Meaning(ts[0]) + LiteralMeaning(ts[1..])
  }

  lemma UnitTurn(h: Bytes, r: Bytes)
    requires WellFormed(Unit(h))
    ensures UnescapeTurn(TokenText(Unit(h)) + r) == Turn(6, Meaning(Unit(h)))
  {
    hide Utf8;
    var b := TokenText(Unit(h)) + r;
    assert b[2..6] == h;
  }

  lemma PairTurn(hi: Bytes, lo: Bytes, r: Bytes)
    requires WellFormed(Pair(hi, lo))
    ensures UnescapeTurn(TokenText(Pair(hi, lo)) + r) == Turn(12, Meaning(Pair(hi, lo)))
  {
    hide Utf8, Combine;
    var b := TokenText(Pair(hi, lo)) + r;
    assert b[2..6] == hi && b[8..12] == lo;
  }

  lemma TokenTurn(t: Token, r: Bytes)
    requires WellFormed(t)
    ensures UnescapeTurn(TokenText(t) + r) == Turn(|TokenText(t)|, Meaning(t))
  {
    hide Utf8, Utf16Literal, Combine;
    match t
    case Unit(h) =>
      UnitTurn(h, r);
      assert IsHex4(h);
    case Pair(hi, lo) =>
      PairTurn(hi, lo, r);
      assert IsHex4(hi) && IsHex4(lo);
    case _ =>
  }

  lemma {:induction false} SkipPlain(s: Bytes, n: nat)
    requires n <= |s| && forall i | 0 <= i < n :: s[i] != QUOTE && s[i] != BACKSLASH
    ensures ClosingQuote(s) == Shift(n, ClosingQuote(s[n..]))
  {
    if n > 0 {
      SkipPlain(s[1..], n - 1);
      SuffixOfSuffix(s, 1, n - 1);
    } else {
      assert s[0..] == s;
    }
  }

  lemma {:induction false} UnitScanned(h: Bytes, r: Bytes)
    requires IsHex4(h)
    ensures ClosingQuote([BACKSLASH, 117] + h + r) == Shift(6, ClosingQuote(r))
  {
    var b := [BACKSLASH, 117] + h + r;
    assert b[2..] == h + r;
    SkipPlain(h + r, 4);
    assert (h + r)[4..] == r;
  }

  lemma PairScanned(hi: Bytes, lo: Bytes, r: Bytes)
    requires IsHex4(hi) && IsHex4(lo)
    ensures ClosingQuote(TokenText(Pair(hi, lo)) + r) == Shift(12, ClosingQuote(r))
  {
    hide ClosingQuote, IsHex4;
    var half := [BACKSLASH, 117] + lo + r;
    UnitScanned(hi, half);
    UnitScanned(lo, r);
    Carry4([BACKSLASH, 117], hi, [BACKSLASH, 117], lo, r);
    Carry2([BACKSLASH, 117], hi, half);
    Carry2([BACKSLASH, 117], lo, r);
  }

  lemma {:induction false} TokenScanned(t: Token, r: Bytes)
    requires WellFormed(t)
    ensures ClosingQuote(TokenText(t) + r) == Shift(|TokenText(t)|, ClosingQuote(r))
  {
    hide IsHex4;
    var b := TokenText(t) + r;
    match t
    case Raw(_) =>
      assert b[1..] == r;
    case Short(_) =>
      assert b[2..] == r;
    case Unit(h) =>
      UnitScanned(h, r);
    case Pair(hi, lo) =>
      PairScanned(hi, lo, r);
  }

  lemma {:induction false} LiteralUnescapes(ts: seq<Token>)
    requires forall t <- ts :: WellFormed(t)
    ensures Unescape(LiteralText(ts)) == Done(LiteralMeaning(ts))
  {
    hide UnescapeTurn, TokenText, Meaning, WellFormed;
    if ts != [] {
      var head, tail := TokenText(ts[0]), LiteralText(ts[1..]);
      TokenTurn(ts[0], tail);
      assert (head + tail)[|head|..] == tail;
      LiteralUnescapes(ts[1..]);
    }
  }

  lemma {:induction false} LiteralScanned(ts: seq<Token>, r: Bytes)
    requires forall t <- ts :: WellFormed(t)
    ensures ClosingQuote(LiteralText(ts) + ([QUOTE] + r)) == Some(|LiteralText(ts)|)
  {
    hide TokenText, WellFormed;
    var close := [QUOTE] + r;
    if ts == [] {
      assert LiteralText(ts) + close == close;
      Uncons(QUOTE, r);
    } else {
      hide ClosingQuote;
      LiteralScanned(ts[1..], r);
      TokenScanned(ts[0], LiteralText(ts[1..]) + close);
      Carry2(TokenText(ts[0]), LiteralText(ts[1..]), close);
    }
  }

  /** Every well-formed literal parses to its raw bytes and the UTF-8 of its escapes. */
  lemma LiteralParses(ts: seq<Token>, r: Bytes)
    requires forall t <- ts :: WellFormed(t)
    ensures ParseString([QUOTE] + LiteralText(ts) + [QUOTE] + r) == Ok(LiteralMeaning(ts), r)
  {
    hide ClosingQuote, Unescape, LiteralText, LiteralMeaning, WellFormed;
    LiteralUnescapes(ts);
    LiteralScanned(ts, r);
    var body := LiteralText(ts);
    var s := [QUOTE] + body + [QUOTE] + r;
    assert s[1..] == body + ([QUOTE] + r);
    assert s[1..1 + |body|] == body;
    assert s[|body| + 2..] == r;
  }

  // ---- print_string_ptr ----

  function EscapeByte(c: byte): (r: Bytes)
    ensures 1 <= |r| <= 6
  {
    if c > 31 && c != QUOTE && c != BACKSLASH then [c]
    else if c == BACKSLASH then [BACKSLASH, BACKSLASH]
    else if c == QUOTE then [BACKSLASH, QUOTE]
    else if c == BACKSPACE then [BACKSLASH, 98]
    else if c == FORMFEED then [BACKSLASH, 102]
    else if c == NEWLINE then [BACKSLASH, 110]
    else if c == RETURN then [BACKSLASH, 114]
    else if c == TAB then [BACKSLASH, 116]
    else [BACKSLASH, 117, 48, 48, Digit(c / 16), Digit(c % 16)]
  }

  function Escape(s: Bytes): (r: Bytes)
  {
    if s == [] then [] else EscapeByte(s[0]) + Escape(s[1..])
  }

  /** The text print_string_ptr writes for a string of which C sees `s`. */
  function Quoted(s: Bytes): Bytes { [QUOTE] + Escape(s) + [QUOTE] }

  function TokenOf(c: byte): (t: Token)
    requires c != NUL
    ensures WellFormed(t) && TokenText(t) == EscapeByte(c) && Meaning(t) == [c]
  {
    if |EscapeByte(c)| == 1 then Raw(c)
    else if |EscapeByte(c)| == 2 then Short(EscapeByte(c)[1])
    else Unit(EscapeByte(c)[2..])
  }

  function TokensOf(s: Bytes): (ts: seq<Token>)
    requires NUL !in s
    ensures forall t <- ts :: WellFormed(t)
  {
    if s == [] then [] else [TokenOf(s[0])] + TokensOf(s[1..])
  }

  lemma {:induction false} TokensRender(s: Bytes)
    requires NUL !in s
    ensures LiteralText(TokensOf(s)) == Escape(s) && LiteralMeaning(TokensOf(s)) == s
  {
    hide EscapeByte, TokenText, Meaning;
    if s != [] {
      TokensRender(s[1..]);
      assert TokensOf(s)[1..] == TokensOf(s[1..]);
    }
  }

  /** parse_string undoes print_string_ptr. */
  lemma StringRoundTrip(s: Bytes, r: Bytes)
    requires NUL !in s
    ensures ParseString(Quoted(s) + r) == Ok(s, r)
  {
    LiteralParses(TokensOf(s), r);
    TokensRender(s);
    assert Quoted(s) + r == [QUOTE] + Escape(s) + [QUOTE] + r;
  }
}
