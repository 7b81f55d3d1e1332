/** cJSON_Minify: the in-place scan with its two cursors equals a pure lexer, which is idempotent. */
module CJsonMinify {
  import opened Text

  predicate Blank(c: byte) { c == SPACE || c == TAB || c == RETURN || c == NEWLINE }

  function AfterLine(s: Bytes): (r: Bytes)
    requires Terminated(s)
    ensures Terminated(r) && |r| <= |s|
  {
    if s[0] == NUL then s else if s[0] == NEWLINE then s[1..] else AfterLine(s[1..])
  }

  function AfterBlock(s: Bytes): (r: Bytes)
    requires Terminated(s)
    ensures Terminated(r) && |r| <= |s|
  {
    if s[0] == NUL then s
    else if s[0] == STAR && s[1] == SLASH then s[2..]
    else AfterBlock(s[1..])
  }

  /** What is left of a text outside strings, its terminator included. */
  function Minified(s: Bytes): (r: Bytes)
    requires Terminated(s)
    ensures Terminated(r) && |r| <= |s|
    decreases |s|
  {
    if s[0] == NUL then [NUL]
    else if Blank(s[0]) then Minified(s[1..])
    else if s[0] == SLASH then
      if s[1] == SLASH then Minified(AfterLine(s[2..]))
      else if s[1] == STAR then Minified(AfterBlock(s[2..]))
      else Minified(s[1..])
    else if s[0] == QUOTE then [QUOTE] + MinifiedString(s[1..])
    else [s[0]] + Minified(s[1..])
  }

  /** The same inside a string: a quote right after a backslash never closes it. */
  function MinifiedString(s: Bytes): (r: Bytes)
    requires Terminated(s)
    ensures Terminated(r) && |r| <= |s| && r[0] == s[0]
    decreases |s|
  {
    if s[0] == NUL then [NUL]
    else if s[0] == QUOTE then [QUOTE] + Minified(s[1..])
    else if s[0] == BACKSLASH && s[1] == QUOTE then [BACKSLASH, QUOTE] + MinifiedString(s[2..])
    else [s[0]] + MinifiedString(s[1..])
  }

  /** Minifying a minified text changes nothing, whatever the text. */
  lemma {:induction false} MinifiedTwice(s: Bytes)
    requires Terminated(s)
    ensures Minified(Minified(s)) == Minified(s)
    decreases |s|
  {
    if s[0] == NUL {
    } else if Blank(s[0]) {
      MinifiedTwice(s[1..]);
    } else if s[0] == SLASH {
      if s[1] == SLASH {
        MinifiedTwice(AfterLine(s[2..]));
      } else if s[1] == STAR {
        MinifiedTwice(AfterBlock(s[2..]));
      } else {
        MinifiedTwice(s[1..]);
      }
    } else if s[0] == QUOTE {
      MinifiedStringTwice(s[1..]);
      Uncons(QUOTE, MinifiedString(s[1..]));
    } else {
      MinifiedTwice(s[1..]);
      Uncons(s[0], Minified(s[1..]));
    }
  }

  lemma {:induction false} MinifiedStringTwice(s: Bytes)
    requires Terminated(s)
    ensures MinifiedString(MinifiedString(s)) == MinifiedString(s)
    decreases |s|
  {
    if s[0] == NUL {
    } else if s[0] == QUOTE {
      MinifiedTwice(s[1..]);
      Uncons(QUOTE, Minified(s[1..]));
    } else if s[0] == BACKSLASH && s[1] == QUOTE {
      MinifiedStringTwice(s[2..]);
      assert ([BACKSLASH, QUOTE] + MinifiedString(s[2..]))[2..] == MinifiedString(s[2..]);
    } else {
      MinifiedStringTwice(s[1..]);
      Uncons(s[0], MinifiedString(s[1..]));
    }
  }

  // ---- the in-place scan ----

  lemma CommentStep(s: Bytes, read: nat)
    requires Terminated(s) && read < |s|
    ensures s[read] == NUL ==> AfterLine(s[read..]) == s[read..] && AfterBlock(s[read..]) == s[read..]
    ensures s[read] == NEWLINE ==> AfterLine(s[read..]) == s[read + 1..]
    ensures s[read] == STAR && s[read + 1] == SLASH ==> AfterBlock(s[read..]) == s[read + 2..]
    ensures s[read] != NUL && s[read] != NEWLINE ==> AfterLine(s[read..]) == AfterLine(s[read + 1..])
    ensures s[read] != NUL && !(s[read] == STAR && s[read + 1] == SLASH)
        ==> AfterBlock(s[read..]) == AfterBlock(s[read + 1..])
  {
    if s[read] != NUL {
      SuffixOfSuffix(s, read, 1);
    }
    if s[read] == STAR && s[read + 1] == SLASH {
      SuffixOfSuffix(s, read, 2);
    }
  }

  method SkipOnelineComment(json: array<byte>, start: nat) returns (read: nat)
    requires Terminated(json[..]) && start + 2 < json.Length
    ensures start + 2 <= read < json.Length && json[..][read..] == AfterLine(json[..][start + 2..])
  {
    hide AfterLine, AfterBlock;
    read := start + 2;
    while json[read] != NUL
      invariant start + 2 <= read < json.Length && AfterLine(json[..][read..]) == AfterLine(json[..][start + 2..])
      decreases json.Length - read
    {
      CommentStep(json[..], read);
      if json[read] == NEWLINE {
        read := read + 1;
        return;
      }
      read := read + 1;
    }
    CommentStep(json[..], read);
  }

  method SkipMultilineComment(json: array<byte>, start: nat) returns (read: nat)
    requires Terminated(json[..]) && start + 2 < json.Length
    ensures start + 2 <= read < json.Length && json[..][read..] == AfterBlock(json[..][start + 2..])
  {
    hide AfterLine, AfterBlock;
    read := start + 2;
    while json[read] != NUL
      invariant start + 2 <= read < json.Length && AfterBlock(json[..][read..]) == AfterBlock(json[..][start + 2..])
      decreases json.Length - read
    {
      CommentStep(json[..], read);
      if json[read] == STAR && json[read + 1] == SLASH {
        read := read + 2;
        return;
      }
      read := read + 1;
    }
    CommentStep(json[..], read);
  }

  /** What the scan keeps: the text done, the text to come and the tail not yet written. */
  ghost predicate Scanning(json: array<byte>, was: Bytes, read: nat, write: nat, rest: Bytes)
    reads json
  {
    && write <= read < json.Length == |was|
    && Terminated(was)
    && json[write..] == was[write..]
    && json[..write] + rest == Minified(was)
  }

  /** The text to come is still the original one: the write cursor never passes the read cursor. */
  lemma Ahead(json: array<byte>, was: Bytes, read: nat, write: nat, rest: Bytes)
    requires Scanning(json, was, read, write, rest)
    ensures json[..][read..] == was[read..] && Terminated(was[read..]) && Terminated(json[..])
    ensures json[read] == was[read]
    ensures json[read] != NUL
      ==> read + 1 < |was| && json[read + 1] == was[read + 1] && was[read..][1..] == was[read + 1..]
  {
    assert json[write..][read - write..] == was[write..][read - write..];
    assert json[..][read..] == json[read..];
  }

  /** Copying one byte down moves it from what is to come to what is done. */
  method Copy(json: array<byte>, read: nat, write: nat, ghost was: Bytes, ghost rest: Bytes)
    requires read < |was| && was[read] != NUL && Scanning(json, was, read, write, [was[read]] + rest)
    modifies json
    ensures Scanning(json, was, read + 1, write + 1, rest)
  {
    hide Minified, MinifiedString;
    Ahead(json, was, read, write, [was[read]] + rest);
    ghost var done := json[..write];
    json[write] := json[read];
    assert json[..write + 1] == done + [was[read]];
    Carry2(done, [was[read]], rest);
    assert json[write + 1..] == was[write..][1..];
  }

  lemma StringStep(was: Bytes, read: nat)
    requires Terminated(was) && read < |was|
    ensures was[read] == NUL ==> MinifiedString(was[read..]) == [NUL]
    ensures was[read] == QUOTE ==> MinifiedString(was[read..]) == [QUOTE] + Minified(was[read + 1..])
    ensures was[read] == BACKSLASH && was[read + 1] == QUOTE
        ==> MinifiedString(was[read..]) == [BACKSLASH] + ([QUOTE] + MinifiedString(was[read + 2..]))
    ensures was[read] != NUL && was[read] != QUOTE && !(was[read] == BACKSLASH && was[read + 1] == QUOTE)
        ==> MinifiedString(was[read..]) == [was[read]] + MinifiedString(was[read + 1..])
  {
    if was[read] != NUL {
      SuffixOfSuffix(was, read, 1);
    }
    if was[read] == BACKSLASH && was[read + 1] == QUOTE {
      SuffixOfSuffix(was, read, 2);
    }
  }

  method MinifyString(json: array<byte>, start: nat, into: nat, ghost was: Bytes)
    returns (read: nat, write: nat)
    requires start < |was| == json.Length && Terminated(was) && was[start] == QUOTE
    requires Scanning(json, was, start, into, [QUOTE] + MinifiedString(was[start + 1..]))
    modifies json
    ensures start < read < |was|
    ensures Scanning(json, was, read, write, Minified(was[read..]))
  {
    hide Scanning, Minified, MinifiedString;
    Copy(json, start, into, was, MinifiedString(was[start + 1..]));
    read, write := start + 1, into + 1;
    while json[read] != NUL
      invariant start < read < |was|
      invariant Scanning(json, was, read, write, MinifiedString(was[read..]))
      decreases |was| - read
    {
      Ahead(json, was, read, write, MinifiedString(was[read..]));
      StringStep(was, read);
      if json[read] == QUOTE {
        Copy(json, read, write, was, Minified(was[read + 1..]));
        read, write := read + 1, write + 1;
        return;
      } else if json[read] == BACKSLASH && json[read + 1] == QUOTE {
        Copy(json, read, write, was, [QUOTE] + MinifiedString(was[read + 2..]));
        read, write := read + 1, write + 1;
        Copy(json, read, write, was, MinifiedString(was[read + 1..]));
      } else {
        Copy(json, read, write, was, MinifiedString(was[read + 1..]));
      }
      read, write := read + 1, write + 1;
    }
    Ahead(json, was, read, write, MinifiedString(was[read..]));
    StringStep(was, read);
    TextStep(was, read);
  }

  lemma TextStep(was: Bytes, read: nat)
    requires Terminated(was) && read < |was|
    ensures was[read] == NUL ==> Minified(was[read..]) == [NUL]
    ensures Blank(was[read]) ==> Minified(was[read..]) == Minified(was[read + 1..])
    ensures was[read] == QUOTE ==> Minified(was[read..]) == [QUOTE] + MinifiedString(was[read + 1..])
    ensures was[read] == SLASH && was[read + 1] == SLASH
      ==> Minified(was[read..]) == Minified(AfterLine(was[read + 2..]))
    ensures was[read] == SLASH && was[read + 1] == STAR
      ==> Minified(was[read..]) == Minified(AfterBlock(was[read + 2..]))
    ensures was[read] == SLASH && was[read + 1] != SLASH && was[read + 1] != STAR
        ==> Minified(was[read..]) == Minified(was[read + 1..])
    ensures was[read] != NUL && !Blank(was[read]) && was[read] != QUOTE && was[read] != SLASH
      ==> Minified(was[read..]) == [was[read]] + Minified(was[read + 1..])
  {
    if was[read] != NUL {
      SuffixOfSuffix(was, read, 1);
    }
    if was[read] == SLASH && read + 2 <= |was| {
      SuffixOfSuffix(was, read, 2);
    }
  }

  lemma Skipped(json: array<byte>, was: Bytes, read: nat, write: nat, rest: Bytes, next: nat)
    requires Scanning(json, was, read, write, rest) && read <= next < |was|
    ensures Scanning(json, was, next, write, rest)
  {
  }

  lemma ScanStarts(json: array<byte>)
    requires Terminated(json[..])
    ensures Scanning(json, json[..], 0, 0, Minified(json[..][0..]))
  {
    assert json[..][0..] == json[..] && json[..0] + Minified(json[..]) == Minified(json[..]);
  }

  /** cJSON_Minify: the bytes after the new terminator keep their old values. */
  method Minify(json: array<byte>)
    requires Terminated(json[..])
    modifies json
    ensures var m := Minified(old(json[..])); json[..] == m + old(json[..])[|m|..]
  {
    hide Scanning, Minified, MinifiedString, AfterLine, AfterBlock;
    ghost var was := json[..];
    var read, write := 0, 0;
    ScanStarts(json);
    while json[read] != NUL
      invariant read < |was| == json.Length && Scanning(json, was, read, write, Minified(was[read..]))
      decreases |was| - read
    {
      ghost var rest := Minified(was[read..]);
      Ahead(json, was, read, write, rest);
      TextStep(was, read);
      var next := read + 1;
      if json[read] == SPACE || json[read] == TAB || json[read] == RETURN || json[read] == NEWLINE {
        Skipped(json, was, read, write, rest, next);
      } else if json[read] == SLASH {
        SuffixOfSuffix(json[..], read, 2);
        SuffixOfSuffix(was, read, 2);
        if json[read + 1] == SLASH {
          next := SkipOnelineComment(json, read);
        } else if json[read + 1] == STAR {
          next := SkipMultilineComment(json, read);
        }
        Skipped(json, was, read, write, rest, next);
        Ahead(json, was, next, write, rest);
      } else if json[read] == QUOTE {
        next, write := MinifyString(json, read, write, was);
      } else {
        Copy(json, read, write, was, Minified(was[read + 1..]));
        write := write + 1;
      }
      read := next;
    }
    Ahead(json, was, read, write, Minified(was[read..]));
    TextStep(was, read);
    Finish(json, was, read, write);
  }

  method Finish(json: array<byte>, ghost was: Bytes, ghost read: nat, write: nat)
    requires Scanning(json, was, read, write, [NUL])
    modifies json
    ensures json[..] == Minified(was) + was[|Minified(was)|..]
  {
    hide Minified;
    ghost var done := json[..write];
    json[write] := NUL;
    assert json[write + 1..] == was[write..][1..] == was[write + 1..];
    assert json[..write + 1] == done + [NUL];
    assert json[..] == json[..write + 1] + json[write + 1..];
  }

  // ---- C strings ----

  lemma SealedCons(c: byte, x: Bytes)
    requires Sealed(x) && c != NUL
    ensures Sealed([c] + x)
  {
    assert ([c] + x)[..|x|] == [c] + x[..|x| - 1];
  }

  lemma {:induction false} MinifiedSealed(s: Bytes)
    requires Terminated(s)
    ensures Sealed(Minified(s))
    decreases |s|
  {
    hide Sealed, MinifiedString;
    if s[0] == NUL {
      SealedNul();
    } else if s[0] == SLASH && s[1] == SLASH {
      MinifiedSealed(AfterLine(s[2..]));
    } else if s[0] == SLASH && s[1] == STAR {
      MinifiedSealed(AfterBlock(s[2..]));
    } else if s[0] == QUOTE {
      MinifiedStringSealed(s[1..]);
      SealedCons(QUOTE, MinifiedString(s[1..]));
    } else {
      MinifiedSealed(s[1..]);
      SealedCons(s[0], Minified(s[1..]));
    }
  }

  lemma {:induction false} MinifiedStringSealed(s: Bytes)
    requires Terminated(s)
    ensures Sealed(MinifiedString(s))
    decreases |s|
  {
    hide Sealed, Minified;
    if s[0] == NUL {
      SealedNul();
    } else if s[0] == QUOTE {
      MinifiedSealed(s[1..]);
      SealedCons(QUOTE, Minified(s[1..]));
    } else if s[0] == BACKSLASH && s[1] == QUOTE {
      MinifiedStringSealed(s[2..]);
      SealedCons(QUOTE, MinifiedString(s[2..]));
      SealedCons(BACKSLASH, [QUOTE] + MinifiedString(s[2..]));
      Carry2([BACKSLASH], [QUOTE], MinifiedString(s[2..]));
      assert [BACKSLASH] + [QUOTE] == [BACKSLASH, QUOTE];
    } else {
      MinifiedStringSealed(s[1..]);
      SealedCons(s[0], MinifiedString(s[1..]));
    }
  }

  lemma SealedNul()
    ensures Sealed([NUL])
  {
  }

  /** The C string cJSON_Minify leaves behind. */
  function MinifiedText(text: Bytes): Bytes
    requires NUL !in text
  {
    CString(Minified(text + [NUL]))
  }

  lemma MinifiedTextMeaning(text: Bytes)
    requires NUL !in text
    ensures Sealed(text + [NUL]) && NUL !in MinifiedText(text)
    ensures Minified(text + [NUL]) == MinifiedText(text) + [NUL] && |MinifiedText(text)| <= |text|
  {
    assert (text + [NUL])[..|text|] == text;
    MinifiedSealed(text + [NUL]);
    SealedCString(Minified(text + [NUL]));
  }

  lemma {:induction false} SealedCString(m: Bytes)
    requires Sealed(m)
    ensures m == CString(m) + [NUL]
  {
    SealedSuffix(m, 0);
    if |m| > 1 {
      SealedSuffix(m, 1);
      SealedCString(m[1..]);
    }
  }

  /** Minify is idempotent on every C string. */
  lemma MinifyIdempotent(text: Bytes)
    requires NUL !in text
    ensures NUL !in MinifiedText(text) && MinifiedText(MinifiedText(text)) == MinifiedText(text)
  {
    MinifiedTextMeaning(text);
    MinifiedTwice(text + [NUL]);
  }

  // ---- what is removed and what is kept, byte by byte ----

  /** Where a reader of the text is: in the text proper, in a string, in a string behind a backslash,
      behind a slash, in a line comment, in a block comment, and there behind a star. */
  datatype Place = Proper | Quote | QuoteBack | Slashed | Line | Block | Star

  /** One byte at a time: blanks and slashes go, and so do comments; strings stay whole, where any
      backslash makes the quote behind it part of the string. */
  function Stripped(s: Bytes, at: Place): Bytes
    decreases |s|, at.Slashed?
  {
    if s == [] then []
    else
      var c, t := s[0], s[1..];
      match at
      case Proper =>
        if c == 9 || c == 10 || c == 13 || c == 32 then Stripped(t, Proper)
        else if c == 47 then Stripped(t, Slashed)
        else [c] + Stripped(t, if c == 34 then Quote else Proper)
      case Slashed =>
        if c == 47 then Stripped(t, Line) else if c == 42 then Stripped(t, Block) else Stripped(s, Proper)
      case Quote => [c] + Stripped(t, if c == 34 then Proper else if c == 92 then QuoteBack else Quote)
      case QuoteBack => [c] + Stripped(t, if c == 92 then QuoteBack else Quote)
      case Line => Stripped(t, if c == 10 then Proper else Line)
      case Block => Stripped(t, if c == 42 then Star else Block)
      case Star => Stripped(t, if c == 47 then Proper else if c == 42 then Star else Block)
  }

  /** Read by quotes alone, s has none of the five bytes outside strings. */
  predicate Bare(s: Bytes, at: Place) {
    s == [] ||
    if at == Quote then Bare(s[1..], if s[0] == 34 then Proper else if s[0] == 92 then QuoteBack else Quote)
    else if at == QuoteBack then Bare(s[1..], if s[0] == 92 then QuoteBack else Quote)
    else s[0] !in {9, 10, 13, 32, 47} && Bare(s[1..], if s[0] == 34 then Quote else Proper)
  }

  /** A NUL-free text with its terminator, one byte at a time. */
  lemma TextCons(s: Bytes)
    requires s != [] && 0 !in s
    ensures var x := s + [0];
      Terminated(x) && x[0] == s[0] != 0 && x[1..] == s[1..] + [0] && 0 !in s[1..] && Terminated(x[1..])
      && (s[1..] == [] ==> x[1] == 0) && (s[1..] != [] ==> x[1] == s[1])
  {
  }

  lemma {:induction false} LineSkipped(s: Bytes) returns (u: Bytes)
    requires 0 !in s
    ensures |u| <= |s| && 0 !in u && AfterLine(s + [0]) == u + [0] && Stripped(s, Line) == Stripped(u, Proper)
    decreases |s|
  {
    if s == [] {
      u := [];
    } else {
      TextCons(s);
      if s[0] == 10 {
        u := s[1..];
      } else {
        u := LineSkipped(s[1..]);
      }
    }
  }

  lemma {:induction false} BlockSkipped(s: Bytes) returns (u: Bytes)
    requires 0 !in s
    ensures |u| <= |s| && 0 !in u && AfterBlock(s + [0]) == u + [0] && Stripped(s, Block) == Stripped(u, Proper)
    ensures s != [] && s[0] == 42 ==> Stripped(s[1..], Star) == Stripped(u, Proper)
    decreases |s|
  {
    if s == [] {
      u := [];
    } else {
      TextCons(s);
      if s[0] == 42 && s[1..] != [] && s[1] == 47 {
        u := s[2..];
        assert (s + [0])[2..] == s[2..] + [0] && s[1..][1..] == s[2..];
      } else {
        u := BlockSkipped(s[1..]);
      }
    }
  }

  lemma {:induction false} MinifiedStripped(s: Bytes)
    requires 0 !in s
    ensures Minified(s + [0]) == Stripped(s, Proper) + [0]
    decreases |s|
  {
    hide AfterLine, AfterBlock, MinifiedString;
    if s != [] {
      TextCons(s);
      if s[0] == 34 {
        StringStripped(s[1..]);
        Carry2([34], Stripped(s[1..], Quote), [0]);
      } else if s[0] == 47 {
        SlashStripped(s);
      } else {
        MinifiedStripped(s[1..]);
        Carry2([s[0]], Stripped(s[1..], Proper), [0]);
      }
    }
  }

  lemma {:induction false} SlashStripped(s: Bytes)
    requires 0 !in s && s != [] && s[0] == 47
    ensures Minified(s + [0]) == Stripped(s[1..], Slashed) + [0]
    decreases |s|, 0
  {
    hide AfterLine, AfterBlock, MinifiedString;
    TextCons(s);
    var t := s[1..];
    if t != [] && (t[0] == 47 || t[0] == 42) {
      TextCons(t);
      assert (s + [0])[2..] == t[1..] + [0];
      if t[0] == 47 {
        var u := LineSkipped(t[1..]);
        MinifiedStripped(u);
      } else {
        var u := BlockSkipped(t[1..]);
        MinifiedStripped(u);
      }
    } else {
      MinifiedStripped(t);
    }
  }

  lemma {:induction false} StringStripped(s: Bytes)
    requires 0 !in s
    ensures MinifiedString(s + [0]) == Stripped(s, Quote) + [0]
    decreases |s|
  {
    hide Minified;
    if s == [] {
      assert [] + [0] == [0];
    } else {
      TextCons(s);
      var t := s[1..];
      if s[0] == 34 {
        MinifiedStripped(t);
        Carry2([34], Stripped(t, Proper), [0]);
      } else if s[0] == 92 && t != [] && t[0] == 34 {
        assert (s + [0])[2..] == t[1..] + [0];
        StringStripped(t[1..]);
        assert [92] + ([34] + Stripped(t[1..], Quote)) + [0] == [92, 34] + (Stripped(t[1..], Quote) + [0]);
      } else {
        StringStripped(t);
        if s[0] == 92 {
          BackslashAlone(t);
        }
        Carry2([s[0]], Stripped(t, Quote), [0]);
      }
    }
  }

  lemma BackslashAlone(t: Bytes)
    requires t == [] || t[0] != 34
    ensures Stripped(t, QuoteBack) == Stripped(t, Quote)
  {
  }

  /** Minify leaves exactly the text proper and the strings. */
  lemma MinifyStrips(text: Bytes)
    requires 0 !in text
    ensures MinifiedText(text) == Stripped(text, Proper)
  {
    hide Minified, Stripped;
    MinifiedTextMeaning(text);
    MinifiedStripped(text);
    assert (MinifiedText(text) + [0])[..|MinifiedText(text)|] == MinifiedText(text);
    assert (Stripped(text, Proper) + [0])[..|Stripped(text, Proper)|] == Stripped(text, Proper);
  }

  predicate InString(at: Place) { at == Quote || at == QuoteBack }

  /** Where the reader goes from a byte that is kept. */
  function Next(c: byte, at: Place): Place {
    if at == Quote && c == 34 then Proper
    else if InString(at) then (if c == 92 then QuoteBack else Quote)
    else if c == 34 then Quote
    else Proper
  }

  lemma BareCons(c: byte, x: Bytes, at: Place)
    requires at == Proper || InString(at)
    requires Bare(x, Next(c, at)) && (at == Proper ==> c !in {9, 10, 13, 32, 47})
    ensures Bare([c] + x, at)
  {
    Uncons(c, x);
  }

  lemma {:induction false} StrippedBare(s: Bytes, at: Place)
    ensures Bare(Stripped(s, at), if InString(at) then at else Proper)
    decreases |s|, at.Slashed?
  {
    hide Bare;
    if s == [] {
      BareNothing();
    } else {
      var c, t := s[0], s[1..];
      if InString(at) || (at == Proper && c !in {9, 10, 13, 32, 47}) {
        StrippedBare(t, Next(c, at));
        BareCons(c, Stripped(t, Next(c, at)), at);
      } else if at == Slashed && c != 47 && c != 42 {
        StrippedBare(s, Proper);
      } else {
        StrippedBare(t, Proper);
        StrippedBare(t, Slashed);
        StrippedBare(t, Line);
        StrippedBare(t, Block);
        StrippedBare(t, Star);
      }
    }
  }

  lemma BareNothing()
    ensures forall at :: Bare([], at)
  {
  }

  /** Nothing is left to remove. */
  lemma MinifyBare(text: Bytes)
    requires 0 !in text
    ensures Bare(MinifiedText(text), Proper)
  {
    MinifyStrips(text);
    StrippedBare(text, Proper);
  }
}
