/**
 cJSON's parser as it runs: one cursor and one depth counter, advanced in place. Every method
 is proved equal to the grammar function of CJsonParse on the text at the cursor; every read of
 `content` is proved to be inside it.
 */
module CJsonParser {
  import opened Text
  import opened Digits
  import opened CJsonValue
  import opened CJsonString
  import opened CJsonNumber
  import opened CJsonParse

  /** A parse that goes on after `c` was already read. */
  function After(c: Chain, p: Parsed<Chain>): Parsed<Chain> {
    match p
    case Ok(d, r) => Ok(Concat(c, d), r)
    case Fail(r) => Fail(r)
  }

  lemma AfterNothing(p: Parsed<Chain>)
    ensures After(End, p) == p
  {
  }

  /** The end of an array once `items` are read: the bracket, or an error. */
  function ItemsEnd(items: Chain, t: Bytes): Parsed<Chain>
    requires t != []
  {
    if t[0] == RBRACKET then Ok(items, t[1..]) else Fail(t)
  }

  /** One item and the space behind it. */
  function ParseItem(s: Bytes, depth: nat): (p: Parsed<Json>)
    requires Terminated(s)
    ensures |p.rest| <= |s| && (p.Ok? ==> Terminated(p.rest) && |p.rest| < |s|)
  {
    match CJsonParse.ParseValue(s, depth)
    case Ok(v, r) => Ok(v, SkipSpace(r))
    case Fail(r) => Fail(r)
  }

  lemma LastFails(s: Bytes, depth: nat)
    requires Terminated(s) && ParseItem(s, depth).Fail?
    ensures ParseItems(s, depth) == Fail(ParseItem(s, depth).rest)
  {
    hide CJsonParse.ParseValue, SkipSpace;
  }

  /** What one more item does to a parse in progress. */
  lemma ItemRead(items: Chain, s: Bytes, depth: nat)
    requires Terminated(s) && ParseItem(s, depth).Ok?
    ensures var v := ParseItem(s, depth).value;
      var t := ParseItem(s, depth).rest;
      var more := Append(items, None, v);
      After(items, ParseItems(s, depth))
      == if t[0] == COMMA then After(more, ParseItems(SkipSpace(t[1..]), depth)) else ItemsEnd(more, t)
  {
    hide CJsonParse.ParseValue, SkipSpace;
    var v, t := ParseItem(s, depth).value, ParseItem(s, depth).rest;
    ConcatAppend(items, None, v, End);
    ConcatEnd(Append(items, None, v));
    if t[0] == COMMA {
      var p := ParseItems(SkipSpace(t[1..]), depth);
      if p.Ok? {
        ConcatAppend(items, None, v, p.value);
      }
    }
  }

  function MembersEnd(members: Chain, t: Bytes): Parsed<Chain>
    requires t != []
  {
    if t[0] == RBRACE then Ok(members, t[1..]) else Fail(t)
  }

  lemma MemberRead(members: Chain, s: Bytes, depth: nat)
    requires Terminated(s) && ParseMember(s, depth).Ok?
    ensures var (name, v) := ParseMember(s, depth).value;
      var t := ParseMember(s, depth).rest;
      var more := Append(members, Some(name), v);
      After(members, ParseMembers(s, depth))
      == if t[0] == COMMA then After(more, ParseMembers(SkipSpace(t[1..]), depth)) else MembersEnd(more, t)
  {
    hide ParseMember, SkipSpace;
    var (name, v) := ParseMember(s, depth).value;
    var t := ParseMember(s, depth).rest;
    ConcatAppend(members, Some(name), v, End);
    ConcatEnd(Append(members, Some(name), v));
    if t[0] == COMMA {
      var p := ParseMembers(SkipSpace(t[1..]), depth);
      if p.Ok? {
        ConcatAppend(members, Some(name), v, p.value);
      }
    }
  }

  lemma SkipOne(s: Bytes, k: nat)
    requires Terminated(s) && k < |s| && s[k] <= 32
    ensures Terminated(s[k..])
    ensures k + 1 < |s| ==> Terminated(s[k + 1..]) && SkipSpace(s[k..]) == SkipSpace(s[k + 1..])
    ensures k + 1 == |s| ==> SkipSpace(s[k..]) == s[k..]
  {
    if k + 1 < |s| {
      SuffixOfSuffix(s, k, 1);
    }
  }

  lemma SliceSnoc(s: Bytes, a: nat, b: nat)
    requires a <= b < |s|
    ensures s[a..b] + [s[b]] == s[a..b + 1]
  {
  }

  lemma SliceOfRest(s: Bytes, a: nat, n: nat)
    requires a + n <= |s|
    ensures s[a..][..n] == s[a..a + n]
  {
  }

  class ParseBuffer {
    const content: Bytes
    var offset: nat
    var depth: nat

    ghost predicate Valid()
      reads this
    {
      Terminated(content) && offset < |content|
    }

    /** The text at the cursor. */
    ghost function Rest(): (s: Bytes)
      requires Valid()
      reads this
      ensures Terminated(s)
    {
      content[offset..]
    }

    /** The cursor, and on success the depth, are where `p` leaves them. */
    ghost predicate Left<T(!new)>(r: Option<T>, p: Parsed<T>, depth0: nat)
      reads this
    {
      match p
      case Ok(v, rest) => r == Some(v) && Valid() && Rest() == rest && depth == depth0
      case Fail(rest) => r == None && offset <= |content| && content[offset..] == rest
    }

    constructor (text: Bytes)
      requires NUL !in text
      ensures Valid() && content == text + [NUL] && offset == 0 && depth == 0
    {
      content := text + [NUL];
      offset := 0;
      depth := 0;
    }

    method SkipWhitespace()
      requires Valid()
      modifies this`offset
      ensures Valid() && Rest() == SkipSpace(old(Rest()))
    {
      hide SkipSpace, Terminated;
      while offset < |content| && content[offset] <= 32
        invariant offset <= |content|
        invariant offset < |content| ==> Terminated(content[offset..])
        invariant offset < |content| ==> SkipSpace(content[offset..]) == SkipSpace(old(Rest()))
        invariant offset == |content| ==> SkipSpace(old(Rest())) == content[|content| - 1..]
      {
        SkipOne(content, offset);
        offset := offset + 1;
      }
      if offset == |content| {
        offset := offset - 1;
      } else {
        TerminatedSuffix(content, offset);
        NoSpace(content[offset..]);
      }
    }

    method SkipUtf8Bom()
      requires Valid() && offset == 0
      modifies this`offset
      ensures Valid() && Rest() == SkipBom(old(Rest()))
    {
      if offset + 4 < |content| && StartsWith(content[offset..], BOM) {
        offset := offset + 3;
      }
    }

    /** The copy loop of parse_number: at most 63 number characters. */
    method CopyNumber() returns (copied: Bytes)
      requires Valid()
      ensures copied == Rest()[..Window(Rest(), WINDOW)]
    {
      hide Terminated, Window, NumberChar;
      copied := [];
      var i := 0;
      while i < WINDOW && offset + i < |content| && NumberChar(content[offset + i])
        invariant i <= WINDOW && offset + i <= |content| && copied == content[offset..offset + i]
        invariant Window(content[offset..], WINDOW) == i + Window(content[offset + i..], WINDOW - i)
      {
        WindowGrows(content, offset + i, WINDOW - i);
        SliceSnoc(content, offset, offset + i);
        copied := copied + [content[offset + i]];
        i := i + 1;
      }
      WindowStops(content[offset + i..], WINDOW - i);
      SliceOfRest(content, offset, i);
    }

    method ParseNumber() returns (r: Option<Decimal>)
      requires Valid()
      modifies this`offset
      ensures Left(r, CJsonNumber.ParseNumber(old(Rest())), depth)
    {
      hide Strtod, Window;
      var copied := CopyNumber();
      match Strtod(copied) {
        case NoNumber =>
          r := None;
        case Scanned(k, d) =>
          SuffixOfSuffix(content, offset, k);
          offset := offset + k;
          r := Some(d);
      }
    }

    /** Pass one of parse_string: where the closing quote is, and how many bytes escapes skip. */
    method FindClosingQuote(start: nat) returns (end: nat, skipped: nat)
      requires start <= |content|
      ensures start <= end <= |content|
      ensures ClosingQuote(content[start..]) == if end < |content| then Some(end - start) else None
      ensures end < |content| ==> Room(content[start..end], false) == end - start - skipped
    {
      hide ClosingQuote, Room, Inside;
      end, skipped := start, 0;
      ClosingEdge(content[start..start], false);
      while end < |content| && content[end] != QUOTE
        invariant start <= end <= |content|
        invariant ClosingQuote(content[start..]) == Shift(end - start, ClosingQuote(content[end..]))
        invariant Room(content[start..end], false) == end - start - skipped
        invariant !Inside(content[start..end], false, end - start)
      {
        ghost var here := end;
        if content[end] == BACKSLASH {
          if end + 1 >= |content| {
            ClosingEdge(content[end..], false);
            end := |content|;
            return;
          }
          skipped := skipped + 1;
          end := end + 1;
        }
        end := end + 1;
        Advance(start, here, end);
      }
      ClosingEdge(content[end..], false);
    }

    lemma Advance(start: nat, here: nat, end: nat)
      requires start <= here < end <= |content| && content[here] != QUOTE
      requires !Inside(content[start..here], false, here - start)
      requires end == here + (if content[here] == BACKSLASH then 2 else 1)
      ensures ClosingQuote(content[here..]) == Shift(end - here, ClosingQuote(content[end..]))
      ensures Room(content[start..end], false) == Room(content[start..here], false) + 1
      ensures !Inside(content[start..end], false, end - start)
    {
      hide ClosingQuote, Room, Inside;
      var b, n := content[start..end], here - start;
      ClosingGrows(content, here, end);
      SliceOfSlice(content, start, end, 0, n);
      SliceOfSlice(content, start, end, n, end - start);
      InsidePrefix(b, false, n);
      RoomSplit(b, false, n);
      assert content[here..end] == b[n..];
      OneEscape(content[here..end]);
    }

    /** Pass two of parse_string: unescape content[start..end] into the buffer pass one sized. */
    method UnescapeInto(start: nat, end: nat, output: array<byte>)
      returns (ok: bool, inputPointer: nat, written: nat)
      requires start <= end < |content| && content[end] == QUOTE
      requires !Inside(content[start..end], false, end - start)
      requires Room(content[start..end], false) < output.Length
      modifies output
      ensures match Unescape(content[start..end])
        case Done(bytes) => ok && written == |bytes| < output.Length && output[..written] == bytes
        case Bad(rest) => !ok && inputPointer == end - |rest|
    {
      hide Unescape, UnescapeTurn, Room, Inside, Prepend;
      ghost var body := content[start..end];
      ghost var e := false;
      inputPointer, written := start, 0;
      PrependEnds([], []);
      while inputPointer < end
        invariant start <= inputPointer <= end + 1
        invariant written + Room(content[Least(inputPointer, end)..end], e) <= Room(body, false)
        invariant !Inside(content[Least(inputPointer, end)..end], e, end - Least(inputPointer, end))
        invariant Unescape(body) == Prepend(output[..written], Unescape(content[Least(inputPointer, end)..end]))
      {
        ghost var b := content[inputPointer..end];
        ghost var t := UnescapeTurn(b);
        UnescapeByTurn(b);
        PrependEnds(output[..written], b);
        if t.Turn? {
          TurnFits(b, e);
          SliceOfSlice(content, inputPointer, end, t.consumed, |b|);
        }
        var sequenceLength;
        ghost var before := output[..written];
        sequenceLength, written := OneTurn(inputPointer, end, output, written);
        if sequenceLength == 0 {
          return false, inputPointer, written;
        }
        PrependTwice(before, t.written, Unescape(b[t.consumed..]));
        inputPointer := inputPointer + sequenceLength;
        e := Inside(b, e, t.consumed);
      }
      assert content[end..end] == [];
      UnescapeNothing();
      PrependEnds(output[..written], []);
      return true, inputPointer, written;
    }

    /** One turn of the loop. A backslash right before the closing quote escapes that quote, and
        the pointer ends up behind it. */
    method OneTurn(inputPointer: nat, end: nat, output: array<byte>, at: nat)
      returns (sequenceLength: nat, written: nat)
      requires inputPointer < end < |content| && content[end] == QUOTE && at < output.Length
      requires var t := UnescapeTurn(content[inputPointer..end]);
        t.Turn? ==> at + |t.written| <= output.Length
      modifies output
      ensures var t := UnescapeTurn(content[inputPointer..end]);
        if t.Turn? then
          Least(inputPointer + sequenceLength, end) == inputPointer + t.consumed
          && 0 < sequenceLength && inputPointer + sequenceLength <= end + 1
          && written == at + |t.written| && output[..written] == old(output[..at]) + t.written
        else sequenceLength == 0
    {
      hide Utf16Literal;
      ghost var b := content[inputPointer..end];
      written := at;
      if content[inputPointer] != BACKSLASH {
        output[at] := content[inputPointer];
        return 1, at + 1;
      }
      var c := content[inputPointer + 1];
      assert inputPointer + 1 < end ==> c == b[1];
      if c == 117 {
        sequenceLength, written := Utf16LiteralToUtf8(inputPointer, end, output, at);
      } else if ShortEscape(c).Some? {
        output[at] := ShortEscape(c).value;
        return 2, at + 1;
      } else {
        return 0, at;
      }
    }

    method ParseHex4(input: nat) returns (h: nat)
      requires input + 4 <= |content|
      ensures h == Hex4(content[input..input + 4])
    {
      ghost var digits := content[input..input + 4];
      h := 0;
      var i := 0;
      while i < 4
        invariant i <= 4 && forall j | 0 <= j < i :: HexDigit(digits[j]).Some?
        invariant h == if i < 4 then 16 * Leading(digits, i) else Leading(digits, 4)
      {
        var c := content[input + i];
        assert c == digits[i];
        if 48 <= c <= 57 {
          h := h + c - 48;
        } else if 65 <= c <= 70 {
          h := h + 10 + c - 65;
        } else if 97 <= c <= 102 {
          h := h + 10 + c - 97;
        } else {
          return 0;
        }
        if i < 3 {
          h := h * 16;
        }
        i := i + 1;
      }
      LeadingFour(digits);
    }

    method Utf16LiteralToUtf8(inputPointer: nat, inputEnd: nat, output: array<byte>, outputPointer: nat)
      returns (sequenceLength: nat, newPointer: nat)
      requires inputPointer <= inputEnd <= |content| && outputPointer <= output.Length
      requires var t := Utf16Literal(content[inputPointer..inputEnd]);
        t.Turn? ==> outputPointer + |t.written| <= output.Length
      modifies output
      ensures match Utf16Literal(content[inputPointer..inputEnd])
        case Stuck => sequenceLength == 0
        case Turn(n, w) =>
          sequenceLength == n && newPointer == outputPointer + |w|
          && output[..newPointer] == old(output[..outputPointer]) + w
    {
      hide Hex4, Utf8, Combine;
      ghost var b := content[inputPointer..inputEnd];
      sequenceLength, newPointer := 0, outputPointer;
      if inputEnd - inputPointer < 6 {
        return;
      }
      var first := ParseHex4(inputPointer + 2);
      SliceOfSlice(content, inputPointer, inputEnd, 2, 6);
      if Low(first) {
        return;
      }
      var codepoint := first;
      var length := 6;
      if High(first) {
        var second := inputPointer + 6;
        length := 12;
        if inputEnd - second < 6 {
          return;
        }
        if content[second] != BACKSLASH || content[second + 1] != 117 {
          return;
        }
        var secondCode := ParseHex4(second + 2);
        SliceOfSlice(content, inputPointer, inputEnd, 8, 12);
        if !Low(secondCode) {
          return;
        }
        codepoint := Combine(first, secondCode);
      }
      newPointer := EncodeUtf8(codepoint, output, outputPointer);
      sequenceLength := length;
    }

    method ParseString() returns (r: Option<Bytes>)
      requires Valid()
      modifies this`offset
      ensures Left(r, CJsonString.ParseString(old(Rest())), depth)
    {
      hide CJsonString.ParseString, ClosingQuote, Unescape, Room, Inside, Terminated;
      var start := offset + 1;
      SuffixOfSuffix(content, offset, 1);
      if content[offset] != QUOTE {
        NoLiteral(content[offset..]);
        offset := start;
        return None;
      }
      var end, skipped := FindClosingQuote(start);
      if end == |content| {
        NoLiteral(content[offset..]);
        offset := start;
        return None;
      }
      ClosingOutside(content[start..]);
      assert content[start..][..end - start] == content[start..end];
      LiteralFound(content, offset, end);
      var output := new byte[end - offset - skipped + 1];
      var ok, inputPointer, written := UnescapeInto(start, end, output);
      if !ok {
        offset := inputPointer;
        return None;
      }
      output[written] := NUL;
      TerminatedNext(content, end);
      offset := end + 1;
      return Some(output[..written]);
    }

    /** The byte order mark, space, one value, and when asked for nothing else behind it. */
    method ParseText(whole: bool) returns (r: Option<Json>)
      requires Valid() && offset == 0 && depth == 0
      modifies this
      ensures Left(r, Closed(CJsonParse.ParseValue(SkipSpace(SkipBom(old(Rest()))), 0), whole), 0)
      decreases |content|, 4
    {
      hide CJsonParse.ParseValue, SkipSpace, SkipBom, Terminated;
      SkipUtf8Bom();
      SkipWhitespace();
      r := ParseValue();
      if r.Some? {
        r := Close(r.value, whole);
      }
    }

    method Close(v: Json, whole: bool) returns (r: Option<Json>)
      requires Valid()
      modifies this`offset
      ensures Left(r, Closed(Ok(v, old(Rest())), whole), depth)
    {
      hide SkipSpace, Terminated;
      if whole {
        SkipWhitespace();
        if content[offset] != NUL {
          return None;
        }
      }
      return Some(v);
    }

    method ParseValue() returns (r: Option<Json>)
      requires Valid()
      modifies this
      ensures Left(r, CJsonParse.ParseValue(old(Rest()), old(depth)), old(depth))
      decreases |content| - offset, 3
    {
      hide CJsonString.ParseString, CJsonNumber.ParseNumber, CJsonParse.ParseArray, CJsonParse.ParseObject, StartsWith;
      if Word(content[offset..], NULL_WORD) {
        SuffixOfSuffix(content, offset, 4);
        offset := offset + 4;
        return Some(Null);
      }
      if Word(content[offset..], FALSE_WORD) {
        SuffixOfSuffix(content, offset, 5);
        offset := offset + 5;
        return Some(False);
      }
      if Word(content[offset..], TRUE_WORD) {
        SuffixOfSuffix(content, offset, 4);
        offset := offset + 4;
        return Some(True);
      }
      if content[offset] == QUOTE {
        var str := ParseString();
        return if str.Some? then Some(String(str.value)) else None;
      }
      if content[offset] == MINUS || IsDigit(content[offset]) {
        var num := ParseNumber();
        return if num.Some? then Some(Number(num.value)) else None;
      }
      if content[offset] == LBRACKET {
        r := ParseArray();
        return;
      }
      if content[offset] == LBRACE {
        r := ParseObject();
        return;
      }
      return None;
    }

    /** Past an opening bracket and the space behind it. */
    method Enter()
      requires Valid() && content[offset] != NUL
      modifies this`offset
      ensures Terminated(old(Rest())[1..]) && Valid() && Rest() == SkipSpace(old(Rest())[1..]) && offset > old(offset)
      ensures content[offset] > 32 || |Rest()| == 1
    {
      hide Terminated, SkipSpace;
      TerminatedNext(content, offset);
      offset := offset + 1;
      SkipWhitespace();
    }

    method ParseArray() returns (r: Option<Json>)
      requires Valid() && content[offset] == LBRACKET
      modifies this
      ensures Left(r, CJsonParse.ParseArray(old(Rest()), old(depth)), old(depth))
      decreases |content| - offset, 2
    {
      hide Terminated, CJsonParse.ParseArray, ParseItems, SkipSpace, Contained;
      TerminatedSuffix(content, offset);
      ArrayCases(content[offset..], depth);
      if depth >= NESTING_LIMIT {
        return None;
      }
      depth := depth + 1;
      Enter();
      if content[offset] == RBRACKET {
        depth := depth - 1;
        TerminatedNext(content, offset);
        offset := offset + 1;
        return Some(Array(End));
      }
      r := ArrayFrom(Rest());
    }

    /** The rest of parse_array, behind the opening bracket and not at an empty list. */
    method ArrayFrom(ghost t: Bytes) returns (r: Option<Json>)
      requires Valid() && Rest() == t && (t[0] > 32 || |t| == 1) && offset > 0 && depth > 0
      modifies this
      ensures Left(r, Contained(false, ParseItems(t, old(depth))), old(depth) - 1)
      decreases |content| - offset + 1, 1
    {
      hide Terminated, ParseItems, SkipSpace;
      NoSpace(t);
      offset := offset - 1;
      var items := ReadItems(t);
      if items == None {
        return None;
      }
      depth := depth - 1;
      return Some(Array(items.value));
    }

    /** One item, up to the separator behind it. */
    method ReadItem() returns (r: Option<Json>)
      requires Valid()
      modifies this
      ensures Left(r, ParseItem(old(Rest()), old(depth)), old(depth))
      ensures r.Some? ==> offset > old(offset)
      decreases |content| - offset, 4
    {
      hide Terminated, CJsonParse.ParseValue, SkipSpace;
      r := ParseValue();
      if r.Some? {
        SkipWhitespace();
      }
    }

    /** The item loop of parse_array, entered with the cursor in front of the first item. */
    method ReadItems(ghost t: Bytes) returns (r: Option<Chain>)
      requires Valid() && Terminated(content[offset + 1..]) && SkipSpace(content[offset + 1..]) == t
      modifies this
      ensures Left(r, ParseItems(t, old(depth)), old(depth))
      ensures r.Some? ==> offset > old(offset)
      decreases |content| - offset, 0
    {
      hide Terminated, ParseItem, ParseItems, SkipSpace, Append, Concat;
      AfterNothing(ParseItems(t, depth));
      var items := End;
      var more := true;
      while more
        invariant old(offset) <= offset < |content| && depth == old(depth)
        invariant more ==> Terminated(content[offset + 1..])
        invariant more ==> ParseItems(t, depth) == After(items, ParseItems(SkipSpace(content[offset + 1..]), depth))
        invariant !more ==> ParseItems(t, depth) == ItemsEnd(items, content[offset..])
        decreases more, |content| - offset
      {
        offset := offset + 1;
        SkipWhitespace();
        ghost var here := Rest();
        var v := ReadItem();
        if v == None {
          LastFails(here, old(depth));
          return None;
        }
        ItemRead(items, here, depth);
        items := Append(items, None, v.value);
        more := content[offset] == COMMA;
        if more {
          TerminatedNext(content, offset);
        }
      }
      if content[offset] != RBRACKET {
        return None;
      }
      TerminatedNext(content, offset);
      offset := offset + 1;
      return Some(items);
    }

    /** The name of a member and its colon, up to the member's value. */
    method ParseMemberName() returns (r: Option<Bytes>)
      requires Valid()
      modifies this`offset
      ensures Left(r, ParseName(old(Rest())), depth)
      ensures r.Some? ==> offset > old(offset)
    {
      hide Terminated, CJsonString.ParseString, SkipSpace;
      r := ParseString();
      if r == None {
        return;
      }
      SkipWhitespace();
      if content[offset] != COLON {
        return None;
      }
      TerminatedNext(content, offset);
      offset := offset + 1;
      SkipWhitespace();
    }

    method ReadMember() returns (r: Option<(Bytes, Json)>)
      requires Valid()
      modifies this
      ensures Left(r, ParseMember(old(Rest()), old(depth)), old(depth))
      ensures r.Some? ==> offset > old(offset)
      decreases |content| - offset, 4
    {
      hide Terminated, CJsonParse.ParseValue, ParseName, SkipSpace;
      var name := ParseMemberName();
      if name == None {
        return None;
      }
      var v := ParseValue();
      if v == None {
        return None;
      }
      SkipWhitespace();
      return Some((name.value, v.value));
    }

    method ParseObject() returns (r: Option<Json>)
      requires Valid() && content[offset] == LBRACE
      modifies this
      ensures Left(r, CJsonParse.ParseObject(old(Rest()), old(depth)), old(depth))
      decreases |content| - offset, 2
    {
      hide Terminated, CJsonParse.ParseObject, ParseMembers, SkipSpace, Contained;
      TerminatedSuffix(content, offset);
      ObjectCases(content[offset..], depth);
      if depth >= NESTING_LIMIT {
        return None;
      }
      depth := depth + 1;
      Enter();
      if content[offset] == RBRACE {
        depth := depth - 1;
        TerminatedNext(content, offset);
        offset := offset + 1;
        return Some(Object(End));
      }
      r := ObjectFrom(Rest());
    }

    /** The rest of parse_object, behind the opening bracket and not at an empty list. */
    method ObjectFrom(ghost t: Bytes) returns (r: Option<Json>)
      requires Valid() && Rest() == t && (t[0] > 32 || |t| == 1) && offset > 0 && depth > 0
      modifies this
      ensures Left(r, Contained(true, ParseMembers(t, old(depth))), old(depth) - 1)
      decreases |content| - offset + 1, 1
    {
      hide Terminated, ParseMembers, SkipSpace;
      NoSpace(t);
      offset := offset - 1;
      var members := ReadMembers(t);
      if members == None {
        return None;
      }
      depth := depth - 1;
      return Some(Object(members.value));
    }

    /** The member loop of parse_object, entered with the cursor in front of the first name. */
    method ReadMembers(ghost t: Bytes) returns (r: Option<Chain>)
      requires Valid() && Terminated(content[offset + 1..]) && SkipSpace(content[offset + 1..]) == t
      modifies this
      ensures Left(r, ParseMembers(t, old(depth)), old(depth))
      ensures r.Some? ==> offset > old(offset)
      decreases |content| - offset, 0
    {
      hide Terminated, ParseMember, ParseMembers, SkipSpace, Append, Concat;
      AfterNothing(ParseMembers(t, depth));
      var members := End;
      var more := true;
      while more
        invariant old(offset) <= offset < |content| && depth == old(depth)
        invariant more ==> Terminated(content[offset + 1..])
        invariant more
          ==> ParseMembers(t, depth) == After(members, ParseMembers(SkipSpace(content[offset + 1..]), depth))
        invariant !more ==> ParseMembers(t, depth) == MembersEnd(members, content[offset..])
        decreases more, |content| - offset
      {
        offset := offset + 1;
        SkipWhitespace();
        ghost var here := Rest();
        var m := ReadMember();
        if m == None {
          EntryFails(here, old(depth));
          return None;
        }
        MemberRead(members, here, depth);
        members := Append(members, Some(m.value.0), m.value.1);
        more := content[offset] == COMMA;
        if more {
          TerminatedNext(content, offset);
        }
      }
      if content[offset] != RBRACE {
        return None;
      }
      TerminatedNext(content, offset);
      offset := offset + 1;
      return Some(members);
    }
  }

  lemma {:induction false} InsidePrefix(b: Bytes, e: bool, n: nat)
    requires n <= |b|
    ensures Inside(b[..n], e, n) == Inside(b, e, n)
  {
    if n > 0 {
      InsidePrefix(b[1..], !e && b[0] == BACKSLASH, n - 1);
      assert b[..n][1..] == b[1..][..n - 1];
    }
  }

  lemma {:induction false} WindowGrows(s: Bytes, at: nat, limit: nat)
    requires at < |s| && NumberChar(s[at]) && limit > 0
    ensures Window(s[at..], limit) == 1 + Window(s[at + 1..], limit - 1)
  {
    SuffixOfSuffix(s, at, 1);
  }

  lemma {:induction false} WindowStops(s: Bytes, limit: nat)
    requires limit == 0 || s == [] || !NumberChar(s[0])
    ensures Window(s, limit) == 0
  {
  }

  lemma ArrayCases(s: Bytes, depth: nat)
    requires Terminated(s) && s[0] == LBRACKET
    ensures var t := SkipSpace(s[1..]);
      CJsonParse.ParseArray(s, depth) ==
      if depth >= NESTING_LIMIT then Fail(s)
      else if t[0] == RBRACKET then Ok(Array(End), t[1..])
      else Contained(false, ParseItems(t, depth + 1))
  {
    hide ParseItems, SkipSpace;
  }

  lemma ObjectCases(s: Bytes, depth: nat)
    requires Terminated(s) && s[0] == LBRACE
    ensures var t := SkipSpace(s[1..]);
      CJsonParse.ParseObject(s, depth) ==
      if depth >= NESTING_LIMIT then Fail(s)
      else if t[0] == RBRACE then Ok(Object(End), t[1..])
      else Contained(true, ParseMembers(t, depth + 1))
  {
    hide ParseMembers, SkipSpace;
  }

  lemma NoLiteral(s: Bytes)
    requires s != [] && (s[0] != QUOTE || ClosingQuote(s[1..]) == None)
    ensures CJsonString.ParseString(s) == Fail(s[1..])
  {
    hide ClosingQuote, Unescape;
  }

  lemma LiteralRead(s: Bytes, k: nat)
    requires s != [] && s[0] == QUOTE && ClosingQuote(s[1..]) == Some(k)
    ensures k + 1 < |s| && CJsonString.ParseString(s) == Unquoted(s, k)
  {
    hide ClosingQuote, Unescape, Terminated, Unquoted;
  }

  lemma LiteralFound(content: Bytes, at: nat, end: nat)
    requires at < end < |content| && content[at] == QUOTE
    requires ClosingQuote(content[at + 1..]) == Some(end - at - 1)
    ensures CJsonString.ParseString(content[at..]) ==
      match Unescape(content[at + 1..end])
      case Done(bytes) => Ok(bytes, content[end + 1..])
      case Bad(rest) => Fail(content[end - |rest|..])
  {
    hide ClosingQuote, Unescape, CJsonString.ParseString;
    var s := content[at..];
    assert content[at..|content|] == s;
    SuffixOfSuffix(content, at, 1);
    LiteralRead(s, end - at - 1);
    SliceOfSlice(content, at, |content|, 1, end - at);
    SuffixOfSuffix(content, at, end + 1 - at);
    var u := Unescape(content[at + 1..end]);
    if u.Bad? {
      SuffixOfSuffix(content, at, end - |u.rest| - at);
    }
  }

  lemma ClosingGrows(s: Bytes, here: nat, end: nat)
    requires here < end <= |s| && s[here] != QUOTE
    requires end == here + (if s[here] == BACKSLASH then 2 else 1)
    ensures ClosingQuote(s[here..]) == Shift(end - here, ClosingQuote(s[end..]))
  {
    SuffixOfSuffix(s, here, end - here);
  }

  /** A plain byte or a whole escape takes one byte of room and ends outside. */
  lemma OneEscape(b: Bytes)
    requires b != [] && |b| == (if b[0] == BACKSLASH then 2 else 1)
    ensures Room(b, false) == 1 && !Inside(b, false, |b|)
  {
    if |b| == 2 {
      assert b[1..][1..] == [];
      assert !Inside(b[1..], true, 1);
    }
  }

  /** The ends of pass one's scan. */
  lemma ClosingEdge(s: Bytes, e: bool)
    ensures s == [] || s == [BACKSLASH] ==> ClosingQuote(s) == None
    ensures s != [] && s[0] == QUOTE ==> ClosingQuote(s) == Some(0)
    ensures s == [] ==> Room(s, e) == 0 && Inside(s, e, 0) == e
  {
  }

  function Least(a: nat, b: nat): nat { if a < b then a else b }

  lemma UnescapeByTurn(b: Bytes)
    requires b != []
    ensures var t := UnescapeTurn(b);
      Unescape(b) == if t.Turn? then Prepend(t.written, Unescape(b[t.consumed..])) else Bad(b)
  {
  }

  lemma PrependTwice(v: Bytes, w: Bytes, u: Unescaped)
    ensures Prepend(v, Prepend(w, u)) == Prepend(v + w, u)
  {
    if u.Done? {
      assert v + (w + u.bytes) == v + w + u.bytes;
    }
  }

  lemma PrependEnds(v: Bytes, b: Bytes)
    ensures Prepend(v, Done([])) == Done(v) && Prepend(v, Bad(b)) == Bad(b) && forall u :: Prepend([], u) == u
  {
  }

  lemma UnescapeNothing()
    ensures Unescape([]) == Done([])
  {
  }

  /** The value of the first k digits of h. */
  function Leading(h: Bytes, k: nat): nat
    requires k <= |h| && forall j | 0 <= j < k :: HexDigit(h[j]).Some?
  {
    if k == 0 then 0 else 16 * Leading(h, k - 1) + HexDigit(h[k - 1]).value
  }

  lemma LeadingFour(h: Bytes)
    requires IsHex4(h)
    ensures Leading(h, 4) == HexValue(h)
  {
    assert Leading(h, 2) == 16 * Leading(h, 1) + HexDigit(h[1]).value;
  }

  function Shifted(n: nat, k: nat): nat { if k == 0 then n else Shifted(n, k - 1) / 64 }

  lemma Utf8Bytes(cp: nat, k: nat)
    requires cp <= 0x10FFFF && k < |Utf8(cp)|
    ensures k + 1 < |Utf8(cp)| ==> Utf8(cp)[|Utf8(cp)| - 1 - k] == 0x80 + Shifted(cp, k) % 64
    ensures k + 1 == |Utf8(cp)| > 1 ==> Utf8(cp)[0] == LeadMark(|Utf8(cp)|) + Shifted(cp, k)
  {
    assert Shifted(cp, 1) == cp / 64;
    assert Shifted(cp, 2) == cp / 64 / 64 == cp / 4096;
    assert Shifted(cp, 3) == cp / 4096 / 64 == cp / 262144;
  }

  lemma Utf8Length(cp: nat)
    requires cp <= 0x10FFFF
    ensures |Utf8(cp)| == if cp < 0x80 then 1 else if cp < 0x800 then 2 else if cp < 0x10000 then 3 else 4
    ensures cp < 0x80 ==> Utf8(cp)[0] == cp
  {
  }

  function LeadMark(n: nat): nat { if n == 2 then 0xC0 else if n == 3 then 0xE0 else 0xF0 }

  /** The encoding loop at the end of utf16_literal_to_utf8: continuation bytes last to first. */
  method EncodeUtf8(codepoint: nat, output: array<byte>, at: nat) returns (end: nat)
    requires codepoint <= 0x10FFFF && at + |Utf8(codepoint)| <= output.Length
    modifies output
    ensures end == at + |Utf8(codepoint)|
    ensures output[..end] == old(output[..at]) + Utf8(codepoint)
  {
    hide Utf8;
    Utf8Length(codepoint);
    var length := if codepoint < 0x80 then 1 else if codepoint < 0x800 then 2 else if codepoint < 0x10000 then 3 else 4;
    ghost var bytes := Utf8(codepoint);
    var rest := codepoint;
    var position := length - 1;
    while position > 0
      invariant 0 <= position < length == |bytes|
      invariant rest == Shifted(codepoint, length - 1 - position)
      invariant output[..at] == old(output[..at])
      invariant forall j | position < j < length :: output[at + j] == bytes[j]
    {
      Utf8Bytes(codepoint, length - 1 - position);
      output[at + position] := 0x80 + rest % 64;
      rest := rest / 64;
      position := position - 1;
    }
    if length > 1 {
      Utf8Bytes(codepoint, length - 1);
      output[at] := LeadMark(length) + rest;
    } else {
      output[at] := rest % 0x80;
    }
    end := at + length;
  }

  /** cJSON_ParseWithOpts: the tree and where it ends, or nothing and the error position. */
  method ParseWithOpts(text: Bytes, requireNullTerminated: bool) returns (item: Option<Json>, parseEnd: nat)
    requires NUL !in text
    ensures match Parse(text, requireNullTerminated)
      case Ok(v, rest) => item == Some(v) && parseEnd + |rest| == |text| + 1 && (text + [NUL])[parseEnd..] == rest
      case Fail(rest) => item == None && parseEnd == ErrorPosition(text, rest)
    ensures parseEnd <= |text|
  {
    hide ParseValue, SkipSpace, SkipBom, Terminated, Closed;
    var buffer := new ParseBuffer(text);
    item := buffer.ParseText(requireNullTerminated);
    parseEnd := if buffer.offset < |buffer.content| then buffer.offset else |buffer.content| - 1;
  }
}
