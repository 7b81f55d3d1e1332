/**
 cJSON's printer as it runs: a growable (or fixed) byte buffer and an offset that lags behind
 the text until update_offset catches up. Every method is proved to add exactly the rendering
 of CJsonRender, and to fail exactly when the rendering and two spare bytes do not fit.
 */
module CJsonPrinter {
  import opened Text
  import opened CJsonValue
  import opened CJsonString
  import opened CJsonNumber
  import opened CJsonParse
  import opened CJsonRender

  const INT_MAX: nat := 0x7FFF_FFFF

  lemma {:induction false} EscapeSnoc(s: Bytes, c: byte)
    ensures Escape(s + [c]) == Escape(s) + EscapeByte(c)
  {
    hide EscapeByte;
    if s == [] {
      assert Escape([]) == [];
      assert [c][1..] == [];
      assert Escape([c]) == EscapeByte(c) + Escape([c][1..]);
    } else {
      assert (s + [c])[1..] == s[1..] + [c];
      EscapeSnoc(s[1..], c);
      Carry2(EscapeByte(s[0]), Escape(s[1..]), EscapeByte(c));
    }
  }

  lemma EscapePrefix(s: Bytes, i: nat)
    requires i < |s|
    ensures Escape(s[..i + 1]) == Escape(s[..i]) + EscapeByte(s[i])
  {
    assert s[..i + 1] == s[..i] + [s[i]];
    EscapeSnoc(s[..i], s[i]);
  }

  lemma {:induction false} EscapeGrows(s: Bytes)
    ensures |Escape(s)| >= |s| && (|Escape(s)| == |s| ==> Escape(s) == s)
  {
    if s != [] {
      EscapeGrows(s[1..]);
    }
  }

  class PrintBuffer {
    var buffer: array<byte>
    var offset: nat
    var depth: nat
    const noalloc: bool
    const format: bool

    ghost predicate Valid()
      reads this
    {
      buffer.Length <= INT_MAX && (offset < buffer.Length || (buffer.Length == 0 && offset == 0))
    }

    /** How large the buffer may become. */
    ghost function Capacity(): nat
      reads this
    {
      if noalloc then buffer.Length else 2147483647
    }

    /** The buffer starts with s as a C string. */
    ghost predicate Holds(s: Bytes)
      reads this, buffer
    {
      |s| < buffer.Length && buffer[..|s|] == s && buffer[|s|] == NUL
    }

    constructor (size: nat, noalloc: bool, format: bool)
      requires size <= INT_MAX
      ensures Valid() && fresh(buffer) && buffer.Length == size && offset == 0 && depth == 0
      ensures this.noalloc == noalloc && this.format == format
    {
      buffer := new byte[size];
      offset := 0;
      depth := 0;
      this.noalloc := noalloc;
      this.format := format;
    }

    /** A printer over the caller's own buffer. */
    constructor Over(buffer: array<byte>, format: bool)
      requires buffer.Length <= INT_MAX
      ensures Valid() && this.buffer == buffer && offset == 0 && depth == 0
      ensures noalloc && this.format == format
    {
      this.buffer := buffer;
      offset := 0;
      depth := 0;
      noalloc := true;
      this.format := format;
    }

    /** Room for `needed` bytes and a terminator at the offset; a reallocation keeps the bytes up to and
        with the one at the offset, and no more. */
    method Ensure(needed: nat) returns (ok: bool)
      requires Valid()
      modifies this`buffer
      ensures Valid() && Capacity() == old(Capacity())
      ensures buffer == old(buffer) || (fresh(buffer) && !noalloc)
      ensures ok <==> offset + needed + 1 <= Capacity()
      ensures ok ==> offset + needed < buffer.Length && buffer[..offset] == old(buffer[..offset])
      ensures ok ==> var total := offset + needed + 1;
        buffer.Length ==
          if total <= old(buffer).Length then old(buffer).Length
          else if 2 * total <= 2147483647 then 2 * total else 2147483647
      ensures !ok ==> buffer == old(buffer)
      ensures ok && old(buffer).Length > 0 ==> buffer[offset] == old(buffer[offset])
    {
      if buffer.Length > 0 && offset >= buffer.Length {
        return false;
      }
      if needed > INT_MAX {
        return false;
      }
      var total := needed + offset + 1;
      if total <= buffer.Length {
        return true;
      }
      if noalloc {
        return false;
      }
      var newSize := total * 2;
      if total > INT_MAX / 2 {
        if total > INT_MAX {
          return false;
        }
        newSize := INT_MAX;
      }
      var newBuffer := new byte[newSize];
      forall i | 0 <= i < buffer.Length && i <= offset {
        newBuffer[i] := buffer[i];
      }
      buffer := newBuffer;
      return true;
    }

    /** strcpy/memcpy without a terminator. */
    method Put(at: nat, s: Bytes)
      requires at + |s| <= buffer.Length
      modifies buffer
      ensures buffer[..at + |s|] == old(buffer[..at]) + s
    {
      forall i | 0 <= i < |s| {
        buffer[at + i] := s[i];
      }
    }

    method Terminate(at: nat)
      requires at < buffer.Length
      modifies buffer
      ensures Holds(old(buffer[..at]))
    {
      buffer[at] := NUL;
    }

    /** update_offset: strlen from the offset. */
    method UpdateOffset(ghost s: Bytes)
      requires Holds(s) && offset <= |s| && NUL !in s[offset..]
      modifies this`offset
      ensures offset == |s|
    {
      ghost var tail := s[offset..];
      assert forall i | offset <= i < |s| :: s[i] == tail[i - offset];
      while buffer[offset] != NUL
        invariant old(offset) <= offset <= |s| && Holds(s)
        decreases |s| - offset
      {
        offset := offset + 1;
      }
    }

    /** ensure, then strcpy: what print_value does for the three words. */
    method PrintWord(w: Bytes) returns (ok: bool)
      requires Valid()
      modifies this, buffer
      ensures offset == old(offset) && Printed(ok, w, old(offset), old(buffer[..offset]), old(depth))
      ensures Capacity() == old(Capacity()) && (buffer == old(buffer) || (fresh(buffer) && !noalloc))
    {
      ok := Ensure(|w| + 1);
      if ok {
        Put(offset, w);
        Terminate(offset + |w|);
      }
    }

    /** The outcome of printing `r` after the text `before` that ends at offset `start`. */
    ghost predicate Printed(ok: bool, r: Bytes, start: nat, before: Bytes, depth0: nat)
      reads this, buffer
    {
      && Valid()
      && (ok <==> start + |r| + 2 <= Capacity())
      && (ok ==> depth == depth0 && start <= offset <= start + |r| && Holds(before + r))
    }

    method PrintNumber(num: Decimal) returns (ok: bool)
      requires Valid()
      modifies this, buffer
      ensures Printed(ok, IntegerText(num.mant), old(offset), old(buffer[..offset]), old(depth))
      ensures Capacity() == old(Capacity()) && (buffer == old(buffer) || (fresh(buffer) && !noalloc))
    {
      hide IntegerText;
      var text := IntegerText(num.mant);
      ok := Ensure(|text| + 1);
      if ok {
        CopyText(text);
        offset := offset + |text|;
      }
    }

    /** The loop that copies the digits to the offset, and the terminator. */
    method CopyText(text: Bytes)
      requires offset + |text| < buffer.Length
      modifies buffer
      ensures Holds(old(buffer[..offset]) + text)
    {
      ghost var before := buffer[..offset];
      var i := 0;
      while i < |text|
        invariant i <= |text|
        invariant buffer[..offset + i] == before + text[..i]
      {
        buffer[offset + i] := text[i];
        i := i + 1;
      }
      buffer[offset + i] := NUL;
      assert text[..i] == text;
    }

    /** The counting pass of print_string_ptr. */
    method CountEscapes(input: Bytes) returns (length: nat, extra: nat)
      ensures length == |CString(input)| && length + extra == |Escape(CString(input))|
    {
      hide EscapeByte, Escape;
      ghost var s := CString(input);
      length, extra := 0, 0;
      assert s[..0] == [];
      EscapeGrows([]);
      EscapeNothing();
      while length < |input| && input[length] != NUL
        invariant length <= |s|
        invariant length + extra == |Escape(s[..length])|
        decreases |s| - length
      {
        EscapePrefix(s, length);
        EscapeWidth(input[length]);
        var c := input[length];
        if c == QUOTE || c == BACKSLASH || c == BACKSPACE || c == FORMFEED
           || c == NEWLINE || c == RETURN || c == TAB {
          extra := extra + 1;
        } else if c < 32 {
          extra := extra + 5;
        }
        length := length + 1;
      }
      assert s[..length] == s;
    }

    method PrintStringPtr(input: Option<Bytes>) returns (ok: bool)
      requires Valid()
      modifies this, buffer
      ensures Printed(ok, Quoted(NameBytes(input)), old(offset), old(buffer[..offset]), old(depth))
      ensures offset == old(offset)
      ensures Capacity() == old(Capacity()) && (buffer == old(buffer) || (fresh(buffer) && !noalloc))
    {
      hide Escape;
      EscapeNothing();
      if input == None {
        assert Quoted([]) == [QUOTE, QUOTE];
        ok := PrintWord([QUOTE, QUOTE]);
        return;
      }
      ghost var s := CString(input.value);
      var length, extra := CountEscapes(input.value);
      var outputLength := length + extra;
      ok := Ensure(outputLength + 3);
      if !ok {
        return;
      }
      WriteQuoted(input.value, length, extra);
    }

    method WriteQuoted(input: Bytes, length: nat, extra: nat)
      requires var s := CString(input);
        length == |s| && length + extra == |Escape(s)| && offset + length + extra + 2 < buffer.Length
      modifies buffer
      ensures Holds(old(buffer[..offset]) + Quoted(CString(input)))
    {
      hide Escape, CString, Quoted;
      ghost var s := CString(input);
      ghost var before := buffer[..offset];
      var outputLength := length + extra;
      Put(offset, [QUOTE]);
      WriteBody(input, length, extra);
      Put(offset + 1 + outputLength, [QUOTE]);
      QuotedBehind(before, s);
      Terminate(offset + 2 + outputLength);
    }

    /** What goes between the quotes: a plain copy if nothing needs escaping. */
    method WriteBody(input: Bytes, length: nat, extra: nat)
      requires var s := CString(input);
        length == |s| && length + extra == |Escape(s)| && offset + 1 + length + extra <= buffer.Length
      modifies buffer
      ensures buffer[..offset + 1 + length + extra] == old(buffer[..offset + 1]) + Escape(CString(input))
    {
      hide Escape, CString;
      if extra == 0 {
        EscapeGrows(CString(input));
        assert input[..length] == CString(input);
        Put(offset + 1, input[..length]);
      } else {
        WriteEscaped(input, length + extra);
      }
    }

    /** The writing pass of print_string_ptr. */
    method WriteEscaped(input: Bytes, ghost outputLength: nat)
      requires outputLength == |Escape(CString(input))| && offset + 1 + outputLength <= buffer.Length
      modifies buffer
      ensures buffer[..offset + 1 + outputLength] == old(buffer[..offset + 1]) + Escape(CString(input))
    {
      hide Escape, EscapeByte;
      ghost var s := CString(input);
      ghost var before := buffer[..offset + 1];
      var i, at := 0, offset + 1;
      EscapeNothing();
      assert s[..0] == [];
      while i < |input| && input[i] != NUL
        invariant i <= |s| && at == offset + 1 + |Escape(s[..i])|
        invariant at + |Escape(s[i..])| == offset + 1 + outputLength
        invariant buffer[..at] == before + Escape(s[..i])
        decreases |s| - i
      {
        EscapePrefix(s, i);
        EscapeSuffix(s, i);
        Put(at, EscapeByte(input[i]));
        at := at + |EscapeByte(input[i])|;
        i := i + 1;
      }
      assert s[..i] == s;
    }

    method PrintValue(v: Json) returns (ok: bool)
      requires Valid() && Printable(v)
      modifies this, buffer
      ensures Printed(ok, Render(v, old(depth), format), old(offset), old(buffer[..offset]), old(depth))
      ensures Capacity() == old(Capacity()) && (buffer == old(buffer) || (fresh(buffer) && !noalloc))
      decreases v, 4
    {
      match v {
        case Null => ok := PrintWord(NULL_WORD);
        case False => ok := PrintWord(FALSE_WORD);
        case True => ok := PrintWord(TRUE_WORD);
        case Number(num) => ok := PrintNumber(num);
        case String(str) => ok := PrintStringPtr(Some(str));
        case Array(c) => ok := PrintArray(c);
        case Object(c) => ok := PrintObject(c);
      }
    }

    /** Where the text stands between two pieces of a container: `s` is complete, the offset is at
        its end; or printing failed because `s` and three more bytes do not fit. */
    ghost predicate Reached(ok: bool, s: Bytes)
      reads this, buffer
    {
      Valid() &&
      if ok then |s| < buffer.Length && offset == |s| && buffer[..offset] == s
      else |s| + 3 > Capacity()
    }

    /** print_value followed by update_offset. */
    method PrintChild(v: Json) returns (ok: bool)
      requires Valid() && Printable(v)
      modifies this, buffer
      ensures Reached(ok, old(buffer[..offset]) + Render(v, old(depth), format))
      ensures ok ==> depth == old(depth)
      ensures !ok ==> old(offset) + |Render(v, old(depth), format)| + 2 > Capacity()
      ensures Capacity() == old(Capacity()) && (buffer == old(buffer) || (fresh(buffer) && !noalloc))
      decreases v, 5
    {
      hide Render;
      ghost var before, r := buffer[..offset], Render(v, depth, format);
      ok := PrintValue(v);
      if ok {
        RenderNulFree(v, old(depth), format);
        assert (before + r)[offset..] == r[offset - |before|..];
        UpdateOffset(before + r);
      }
    }

    /** One turn of print_array's loop. */
    method PrintItem(e: Chain) returns (ok: bool)
      requires Valid() && ChainPrintable(e) && e != End
      modifies this, buffer
      ensures Reached(ok, old(buffer[..offset]) + (Render(e.item, old(depth), format) + ItemSeparator(e.next, format)))
      ensures ok ==> depth == old(depth)
      ensures Capacity() == old(Capacity()) && (buffer == old(buffer) || (fresh(buffer) && !noalloc))
      decreases e, 0
    {
      hide Render, ItemSeparator;
      ghost var before, r := buffer[..offset], Render(e.item, depth, format);
      ghost var sep := ItemSeparator(e.next, format);
      Carry2(before, r, sep);
      ok := PrintChild(e.item);
      if !ok {
        return;
      }
      ok := PrintSeparator(e.next);
    }

    /** The comma between two items. */
    method PrintSeparator(next: Chain) returns (ok: bool)
      requires Valid() && offset < buffer.Length
      modifies this, buffer
      ensures Reached(ok, old(buffer[..offset]) + ItemSeparator(next, format))
      ensures depth == old(depth)
      ensures Capacity() == old(Capacity()) && (buffer == old(buffer) || (fresh(buffer) && !noalloc))
    {
      ghost var sep := ItemSeparator(next, format);
      assert buffer[..offset] + [] == buffer[..offset];
      ok := true;
      if next != End {
        var length := if format then 2 else 1;
        ok := Ensure(length + 1);
        if !ok {
          return;
        }
        Put(offset, if format then [COMMA, SPACE] else [COMMA]);
        assert sep == if format then [COMMA, SPACE] else [COMMA];
        buffer[offset + length] := NUL;
        offset := offset + length;
      }
    }

    /** print_array's loop. */
    method PrintItems(c: Chain) returns (ok: bool)
      requires Valid() && ChainPrintable(c)
      requires offset < buffer.Length
      modifies this, buffer
      ensures Reached(ok, old(buffer[..offset]) + RenderItems(c, old(depth), format))
      ensures ok ==> depth == old(depth)
      ensures Capacity() == old(Capacity()) && (buffer == old(buffer) || (fresh(buffer) && !noalloc))
      decreases c, 1
    {
      hide Render, ItemSeparator;
      ghost var d := depth;
      ghost var before := buffer[..offset];
      ghost var done := before;
      var e := c;
      ok := true;
      while e != End
        invariant ok && Reached(true, done) && depth == d && ChainPrintable(e) && (e == c || e < c)
        invariant Capacity() == old(Capacity()) && (buffer == old(buffer) || (fresh(buffer) && !noalloc))
        invariant done + RenderItems(e, d, format) == before + RenderItems(c, d, format)
        decreases e
      {
        ghost var piece := Render(e.item, d, format) + ItemSeparator(e.next, format);
        Carry2(Render(e.item, d, format), ItemSeparator(e.next, format), RenderItems(e.next, d, format));
        Carry2(done, piece, RenderItems(e.next, d, format));
        ok := PrintItem(e);
        if !ok {
          return;
        }
        done := done + piece;
        e := e.next;
      }
      assert done + [] == done;
    }

    method PrintArray(c: Chain) returns (ok: bool)
      requires Valid() && ChainPrintable(c)
      modifies this, buffer
      ensures Printed(ok, Render(Array(c), old(depth), format), old(offset), old(buffer[..offset]), old(depth))
      ensures Capacity() == old(Capacity()) && (buffer == old(buffer) || (fresh(buffer) && !noalloc))
      decreases c, 2
    {
      hide RenderItems, Render;
      ghost var before, items := buffer[..offset], RenderItems(c, depth + 1, format);
      ArrayParts(before, c, depth, format);
      ok := OpenArray();
      if !ok {
        return;
      }
      ok := PrintItems(c);
      if !ok {
        return;
      }
      ok := CloseArray(before + [LBRACKET] + items);
    }

    method OpenArray() returns (ok: bool)
      requires Valid()
      modifies this, buffer
      ensures Capacity() == old(Capacity()) && (buffer == old(buffer) || (fresh(buffer) && !noalloc))
      ensures Valid() && (ok ==> Reached(true, old(buffer[..offset]) + [LBRACKET]) && depth == old(depth) + 1)
      ensures !ok ==> old(offset) + 2 > Capacity()
    {
      ok := Ensure(1);
      if !ok {
        return;
      }
      Put(offset, [LBRACKET]);
      offset := offset + 1;
      depth := depth + 1;
    }

    method CloseArray(ghost done: Bytes) returns (ok: bool)
      requires Reached(true, done) && depth > 0
      modifies this, buffer
      ensures Capacity() == old(Capacity()) && (buffer == old(buffer) || (fresh(buffer) && !noalloc))
      ensures ok <==> |done + [RBRACKET]| + 2 <= Capacity()
      ensures Valid() && offset == old(offset)
      ensures ok ==> depth == old(depth) - 1 && Holds(done + [RBRACKET])
    {
      ok := Ensure(2);
      if !ok {
        return;
      }
      Put(offset, [RBRACKET]);
      Terminate(offset + 1);
      depth := depth - 1;
    }

    method PutTabs(at: nat, n: nat)
      requires at + n <= buffer.Length
      modifies buffer
      ensures buffer[..at + n] == old(buffer[..at]) + Repeat(TAB, n)
    {
      ghost var before := buffer[..at];
      var i := 0;
      while i < n
        invariant i <= n && buffer[..at + i] == before + Repeat(TAB, n)[..i]
      {
        buffer[at + i] := TAB;
        i := i + 1;
      }
      assert Repeat(TAB, n)[..n] == Repeat(TAB, n);
    }

    method PrintIndent() returns (ok: bool)
      requires Valid() && offset < buffer.Length
      modifies this, buffer
      ensures Reached(ok, old(buffer[..offset]) + Tabs(format, depth))
      ensures depth == old(depth)
      ensures !ok ==> old(offset) + |Tabs(format, depth)| + 1 > Capacity()
      ensures Capacity() == old(Capacity()) && (buffer == old(buffer) || (fresh(buffer) && !noalloc))
    {
      hide Repeat;
      if format {
        ok := Ensure(depth);
        if !ok {
          return;
        }
        PutTabs(offset, depth);
        offset := offset + depth;
      } else {
        ok := true;
        assert buffer[..offset] + [] == buffer[..offset];
      }
    }

    /** print_string_ptr on the name, followed by update_offset. */
    method PrintName(name: Option<Bytes>) returns (ok: bool)
      requires Valid() && offset < buffer.Length
      modifies this, buffer
      ensures ok ==> depth == old(depth) && Reached(true, old(buffer[..offset]) + Quoted(NameBytes(name)))
      ensures !ok ==> Valid() && old(offset) + |Quoted(NameBytes(name))| + 2 > Capacity()
      ensures Capacity() == old(Capacity()) && (buffer == old(buffer) || (fresh(buffer) && !noalloc))
    {
      hide Quoted;
      ghost var before, q := buffer[..offset], Quoted(NameBytes(name));
      ok := PrintStringPtr(name);
      if ok {
        QuotedNulFree(NameBytes(name));
        assert (before + q)[offset..] == q;
        UpdateOffset(before + q);
      }
    }

    method PrintColon() returns (ok: bool)
      requires Valid() && offset < buffer.Length
      modifies this, buffer
      ensures Reached(ok, old(buffer[..offset]) + ([COLON] + Only(format, [TAB])))
      ensures depth == old(depth)
      ensures Capacity() == old(Capacity()) && (buffer == old(buffer) || (fresh(buffer) && !noalloc))
    {
      var length := if format then 2 else 1;
      ok := Ensure(length);
      if ok {
        Put(offset, if format then [COLON, TAB] else [COLON]);
        assert [COLON] + Only(format, [TAB]) == if format then [COLON, TAB] else [COLON];
        offset := offset + length;
      }
    }

    /** Indentation, name and colon of a member. */
    method PrintMemberHead(name: Option<Bytes>) returns (ok: bool)
      requires Valid() && offset < buffer.Length
      modifies this, buffer
      ensures Reached(ok, old(buffer[..offset]) + MemberHead(name, old(depth), format))
      ensures ok ==> depth == old(depth)
      ensures Capacity() == old(Capacity()) && (buffer == old(buffer) || (fresh(buffer) && !noalloc))
    {
      hide Quoted, Tabs, Only;
      ghost var before := buffer[..offset];
      ghost var tabs, q, colon := Tabs(format, depth), Quoted(NameBytes(name)), [COLON] + Only(format, [TAB]);
      Carry2(before, tabs, q + colon);
      Carry2(before + tabs, q, colon);
      ok := PrintIndent();
      if !ok {
        return;
      }
      ok := PrintName(name);
      if !ok {
        return;
      }
      ok := PrintColon();
    }

    /** One turn of print_object's loop. */
    method PrintMember(e: Chain) returns (ok: bool)
      requires Valid() && offset < buffer.Length && ChainPrintable(e) && e != End
      modifies this, buffer
      ensures Reached(ok, old(buffer[..offset]) + MemberLine(e, old(depth), format))
      ensures ok ==> depth == old(depth)
      ensures Capacity() == old(Capacity()) && (buffer == old(buffer) || (fresh(buffer) && !noalloc))
      decreases e, 0
    {
      hide Render, MemberHead, MemberEnd;
      ghost var before := buffer[..offset];
      ghost var head, r := MemberHead(e.name, depth, format), Render(e.item, depth, format);
      ghost var end := MemberEnd(e.next, format);
      Carry2(before, head, r + end);
      Carry2(before + head, r, end);
      ok := PrintMemberHead(e.name);
      if !ok {
        return;
      }
      ok := PrintChild(e.item);
      if !ok {
        return;
      }
      ok := PrintMemberEnd(e.next);
    }

    method PrintMemberEnd(next: Chain) returns (ok: bool)
      requires Valid() && offset < buffer.Length
      modifies this, buffer
      ensures Reached(ok, old(buffer[..offset]) + MemberEnd(next, format))
      ensures depth == old(depth)
      ensures Capacity() == old(Capacity()) && (buffer == old(buffer) || (fresh(buffer) && !noalloc))
    {
      var length := (if format then 1 else 0) + (if next != End then 1 else 0);
      ok := Ensure(length + 1);
      if !ok {
        return;
      }
      Put(offset, (if next != End then [COMMA] else []) + (if format then [NEWLINE] else []));
      buffer[offset + length] := NUL;
      offset := offset + length;
    }

    /** print_object's loop. */
    method PrintMembers(c: Chain) returns (ok: bool)
      requires Valid() && ChainPrintable(c)
      requires offset < buffer.Length
      modifies this, buffer
      ensures Reached(ok, old(buffer[..offset]) + RenderMembers(c, old(depth), format))
      ensures ok ==> depth == old(depth)
      ensures Capacity() == old(Capacity()) && (buffer == old(buffer) || (fresh(buffer) && !noalloc))
      decreases c, 1
    {
      hide MemberLine;
      ghost var d := depth;
      ghost var before := buffer[..offset];
      ghost var done := before;
      var e := c;
      ok := true;
      while e != End
        invariant ok && Reached(true, done) && depth == d && ChainPrintable(e) && (e == c || e < c)
        invariant Capacity() == old(Capacity()) && (buffer == old(buffer) || (fresh(buffer) && !noalloc))
        invariant done + RenderMembers(e, d, format) == before + RenderMembers(c, d, format)
        decreases e
      {
        LineByLine(e, d, format);
        Carry2(done, MemberLine(e, d, format), RenderMembers(e.next, d, format));
        ok := PrintMember(e);
        if !ok {
          return;
        }
        done := done + MemberLine(e, d, format);
        e := e.next;
      }
      assert done + [] == done;
    }

    method PrintObject(c: Chain) returns (ok: bool)
      requires Valid() && ChainPrintable(c)
      modifies this, buffer
      ensures Printed(ok, Render(Object(c), old(depth), format), old(offset), old(buffer[..offset]), old(depth))
      ensures Capacity() == old(Capacity()) && (buffer == old(buffer) || (fresh(buffer) && !noalloc))
      decreases c, 2
    {
      hide RenderMembers, Render, Tabs, Only, Opening;
      ghost var before := buffer[..offset];
      ghost var open, members := Opening(format), RenderMembers(c, depth + 1, format);
      ObjectParts(before, c, depth, format);
      ok := OpenObject();
      if !ok {
        return;
      }
      ok := PrintMembers(c);
      if !ok {
        return;
      }
      ok := CloseObject(before + open + members);
    }

    method OpenObject() returns (ok: bool)
      requires Valid()
      modifies this, buffer
      ensures Capacity() == old(Capacity()) && (buffer == old(buffer) || (fresh(buffer) && !noalloc))
      ensures Valid() && (ok ==> Reached(true, old(buffer[..offset]) + Opening(format)) && depth == old(depth) + 1)
      ensures !ok ==> old(offset) + |Opening(format)| + 2 > Capacity()
    {
      var length := if format then 2 else 1;
      ok := Ensure(length + 1);
      if !ok {
        return;
      }
      Put(offset, Opening(format));
      depth := depth + 1;
      offset := offset + length;
    }

    method PutClosingTabs(ghost done: Bytes)
      requires Reached(true, done) && depth > 0 && offset + (if format then depth - 1 else 0) <= buffer.Length
      modifies buffer
      ensures buffer[..offset + (if format then depth - 1 else 0)] == done + Tabs(format, depth - 1)
    {
      hide Repeat;
      if format {
        PutTabs(offset, depth - 1);
      } else {
        assert done + [] == done;
      }
    }

    method PutBrace(at: nat, ghost text: Bytes)
      requires at + 1 < buffer.Length && |text| == at && buffer[..at] == text
      modifies buffer
      ensures Holds(text + [RBRACE])
    {
      Put(at, [RBRACE]);
      Terminate(at + 1);
    }

    method CloseObject(ghost done: Bytes) returns (ok: bool)
      requires Reached(true, done) && depth > 0
      modifies this, buffer
      ensures Capacity() == old(Capacity()) && (buffer == old(buffer) || (fresh(buffer) && !noalloc))
      ensures ok <==> |done + Tabs(format, old(depth) - 1) + [RBRACE]| + 2 <= Capacity()
      ensures Valid() && offset == old(offset)
      ensures ok ==> depth == old(depth) - 1 && Holds(done + Tabs(format, old(depth) - 1) + [RBRACE])
    {
      hide Tabs;
      TabsLength(format, depth - 1);
      ok := Ensure(if format then depth + 1 else 2);
      if !ok {
        return;
      }
      var at := offset + (if format then depth - 1 else 0);
      PutClosingTabs(done);
      PutBrace(at, done + Tabs(format, depth - 1));
      depth := depth - 1;
    }
  }

  function Opening(fmt: bool): Bytes { if fmt then [LBRACE, NEWLINE] else [LBRACE] }

  lemma TabsLength(fmt: bool, n: nat)
    ensures |Tabs(fmt, n)| == if fmt then n else 0
  {
  }

  lemma ArrayParts(before: Bytes, c: Chain, depth: nat, fmt: bool)
    ensures var r, items := Render(Array(c), depth, fmt), RenderItems(c, depth + 1, fmt);
      before + r == ((before + [LBRACKET]) + items) + [RBRACKET] && |r| == |items| + 2
  {
    hide RenderItems;
    var items := RenderItems(c, depth + 1, fmt);
    Carry2(before, [LBRACKET], items + [RBRACKET]);
    Carry2(before + [LBRACKET], items, [RBRACKET]);
  }

  lemma ObjectParts(before: Bytes, c: Chain, depth: nat, fmt: bool)
    ensures var r, members, tabs := Render(Object(c), depth, fmt), RenderMembers(c, depth + 1, fmt), Tabs(fmt, depth);
      && before + r == (((before + Opening(fmt)) + members) + tabs) + [RBRACE]
      && |r| == |Opening(fmt)| + |members| + |tabs| + 1
  {
    hide RenderMembers, Repeat;
    var members, tabs := RenderMembers(c, depth + 1, fmt), Tabs(fmt, depth);
    assert Opening(fmt) == [LBRACE] + Only(fmt, [NEWLINE]);
    Carry2([LBRACE], Only(fmt, [NEWLINE]), members + (tabs + [RBRACE]));
    Carry2(before, Opening(fmt), members + (tabs + [RBRACE]));
    Carry2(before + Opening(fmt), members, tabs + [RBRACE]);
    Carry2(before + Opening(fmt) + members, tabs, [RBRACE]);
  }

  function MemberLine(e: Chain, depth: nat, fmt: bool): Bytes
    requires e != End
  {
    MemberHead(e.name, depth, fmt) + (Render(e.item, depth, fmt) + MemberEnd(e.next, fmt))
  }

  lemma LineByLine(e: Chain, depth: nat, fmt: bool)
    requires e != End
    ensures RenderMembers(e, depth, fmt) == MemberLine(e, depth, fmt) + RenderMembers(e.next, depth, fmt)
  {
    hide Render, MemberHead, MemberEnd;
    Carry3(MemberHead(e.name, depth, fmt), Render(e.item, depth, fmt), MemberEnd(e.next, fmt),
           RenderMembers(e.next, depth, fmt));
  }

  lemma QuotedBehind(before: Bytes, s: Bytes)
    ensures ((before + [QUOTE]) + Escape(s)) + [QUOTE] == before + Quoted(s) && |Quoted(s)| == |Escape(s)| + 2
  {
    hide Escape;
    Carry2(before, [QUOTE], Escape(s));
    Carry2(before, [QUOTE] + Escape(s), [QUOTE]);
  }

  lemma QuotedNulFree(s: Bytes)
    requires NUL !in s
    ensures NUL !in Quoted(s)
  {
    EscapeNulFree(s);
  }

  lemma EscapeNothing()
    ensures Escape([]) == []
  {
  }

  lemma EscapeWidth(c: byte)
    ensures |EscapeByte(c)| ==
      if c == QUOTE || c == BACKSLASH || c == BACKSPACE || c == FORMFEED || c == NEWLINE || c == RETURN || c == TAB
      then 2 else if c < 32 then 6 else 1
  {
  }

  lemma EscapeSuffix(s: Bytes, i: nat)
    requires i < |s|
    ensures Escape(s[i..]) == EscapeByte(s[i]) + Escape(s[i + 1..])
  {
    assert s[i..][1..] == s[i + 1..];
  }

  const DEFAULT_BUFFER_SIZE: nat := 256

  /** cJSON_Print and cJSON_PrintUnformatted, when every allocation succeeds. */
  method Print(v: Json, format: bool) returns (r: Option<Bytes>)
    requires Printable(v)
    ensures r == if |Render(v, 0, format)| + 2 <= 2147483647 then Some(Render(v, 0, format)) else None
  {
    hide Render;
    var p := new PrintBuffer(DEFAULT_BUFFER_SIZE, false, format);
    var ok := p.PrintValue(v);
    if !ok {
      return None;
    }
    ghost var text := Render(v, 0, format);
    assert [] + text == text;
    RenderNulFree(v, 0, format);
    p.UpdateOffset(text);
    return Some(p.buffer[..p.offset]);
  }

  /** cJSON_PrintPreallocated succeeds exactly when the text and two more bytes fit. */
  method PrintPreallocated(v: Json, buffer: array<byte>, length: int, format: bool) returns (ok: bool)
    requires Printable(v) && length <= 2147483647
    requires length < 0 || length == buffer.Length
    modifies buffer
    ensures ok <==> |Render(v, 0, format)| + 2 <= length
    ensures var text := Render(v, 0, format);
      ok ==> buffer[..|text|] == text && buffer[|text|] == NUL
  {
    hide Render;
    if length < 0 {
      return false;
    }
    var p := new PrintBuffer.Over(buffer, format);
    ok := p.PrintValue(v);
    assert [] + Render(v, 0, format) == Render(v, 0, format);
  }
}
