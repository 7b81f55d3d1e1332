/**
 zlog's growable message buffer. However a message is cut into writes, and whatever the writers
 and the growth steps on the way, the content is one function of the concatenated pieces.
 */
module ZlogBuf {
  import opened Text
  import opened Digits

  const MAXLEN_PATH: nat := 1024
  const INT32_LEN: nat := 11
  const INT64_LEN: nat := 20
  const MAX_UINT32: nat := 0xffffffff
  const MAX_UINT64: nat := 0xffffffffffffffff

  function Min(a: nat, b: nat): nat { if a < b then a else b }

  // ---- what the buffer should hold ----

  /** zlog_buf_truncate: the marker over the last bytes, as much of it as fits. */
  function Marked(s: Bytes, marker: Bytes): (r: Bytes)
    ensures |r| == |s|
  {
    var k := Min(|marker|, |s|);
    s[..|s| - k] + marker[..k]
  }

  /** The content after everything in s has been written; a cap of 0 means none. */
  function Final(s: Bytes, cap: nat, marker: Bytes): Bytes {
    if cap == 0 || |s| <= cap - 1 then s else Marked(s[..cap - 1], marker)
  }

  /** One write: the cut happens at the cap, over what was cut before. */
  lemma FinalStep(s: Bytes, piece: Bytes, cap: nat, marker: Bytes)
    ensures Final(Final(s, cap, marker) + piece, cap, marker) == Final(s + piece, cap, marker)
  {
    if cap > 0 && |s| + |piece| > cap - 1 {
      var m := cap - 1;
      if |s| <= m {
      } else {
        var f := Final(s, cap, marker);
        assert |f| == m;
        var k := Min(|marker|, m);
        assert (f + piece)[..m] == f;
        assert (s + piece)[..m] == s[..m];
        assert f[..m - k] == s[..m][..m - k];
        if piece == [] {
          assert f + piece == f && s + piece == s;
        }
      }
    }
  }

  /** What is left of s: all of it, or its beginning with the marker at the very end. */
  predicate Shown(text: Bytes, s: Bytes, cap: nat, marker: Bytes) {
    if cap != 0 && |s| > cap - 1 then
      var m := cap - 1;
      var k := if |marker| < m then |marker| else m;
      |text| == m && text[..m - k] == s[..m - k] && text[m - k..] == marker[..k]
    else text == s
  }

  lemma FinalShown(s: Bytes, cap: nat, marker: Bytes)
    ensures Shown(Final(s, cap, marker), s, cap, marker)
  {
    if cap != 0 && |s| > cap - 1 {
      var m := cap - 1;
      var k := Min(|marker|, m);
      var t := Final(s, cap, marker);
      assert t == s[..m][..m - k] + marker[..k];
      assert s[..m][..m - k] == s[..m - k];
    }
  }

  /** One call of a writer; Printf carries the text its format expands to. */
  datatype Write =
    | Printf(out: Bytes)
    | Append(str: Bytes)
    | AdjustAppend(str: Bytes, left: bool, zero: bool, inWidth: nat, outWidth: nat)
    | Dec32(n: nat, width: nat)
    | Dec64(n: nat, width: nat)
    | Hex(n: nat, width: nat)

  predicate InRange(w: Write) {
    match w
    case Dec32(n, _) => n <= MAX_UINT32
    case Dec64(n, _) => n <= MAX_UINT64
    case Hex(n, _) => n <= MAX_UINT32
    case _ => true
  }

  /** At most outWidth bytes of str, filled up to inWidth. */
  function Adjusted(str: Bytes, left: bool, zero: bool, inWidth: nat, outWidth: nat): Bytes {
    var source := if outWidth == 0 || |str| < outWidth then str else str[..outWidth];
    var space := if inWidth > |source| then inWidth - |source| else 0;
    if left then source + Repeat(SPACE, space)
    else Repeat(if zero then ZERO else SPACE, space) + source
  }

  function Piece(w: Write): Bytes {
    match w
    case Printf(out) => out
    case Append(str) => str
    case AdjustAppend(str, left, zero, inWidth, outWidth) => Adjusted(str, left, zero, inWidth, outWidth)
    case Dec32(n, width) => ZeroPadded(Radix(n, 10), width)
    case Dec64(n, width) => ZeroPadded(Radix(n, 10), width)
    case Hex(n, width) => ZeroPadded(Radix(n, 16), width)
  }

  function Pieces(ws: seq<Write>): Bytes {
    if ws == [] then [] else Pieces(ws[..|ws| - 1]) + Piece(ws[|ws| - 1])
  }

  /** The pieces stand one behind the other, in the order of the writes. */
  lemma {:induction false} PiecesJoin(a: seq<Write>, b: seq<Write>)
    ensures Pieces(a + b) == Pieces(a) + Pieces(b) && forall w :: Pieces([w]) == Piece(w)
  {
    hide Piece;
    forall w
      ensures Pieces([w]) == Piece(w)
    {
      assert [w][..0] == [] && Pieces([]) == [];
    }
    if b == [] {
      assert a + b == a;
    } else {
      assert (a + b)[..|a + b| - 1] == a + b[..|b| - 1];
      PiecesJoin(a, b[..|b| - 1]);
    }
  }

  /** At most outWidth bytes of the string, on the left or on the right of a field of at least inWidth,
      and blanks or, in front of it only, zeros in the rest. */
  lemma AdjustedField(str: Bytes, left: bool, zero: bool, inWidth: nat, outWidth: nat)
    ensures var r := Adjusted(str, left, zero, inWidth, outWidth);
      var n := if outWidth == 0 || |str| < outWidth then |str| else outWidth;
      && |r| == (if n < inWidth then inWidth else n)
      && (left ==> r[..n] == str[..n] && forall i | n <= i < |r| :: r[i] == 32)
      && (!left ==> r[|r| - n..] == str[..n] && forall i | 0 <= i < |r| - n :: r[i] == if zero then 48 else 32)
  {
  }

  lemma AdjustedParts(str: Bytes, left: bool, zero: bool, inWidth: nat, outWidth: nat)
    ensures var n := if outWidth == 0 || |str| < outWidth then |str| else outWidth;
      var space := if inWidth > n then inWidth - n else 0;
      var pad := if !left && zero then ZERO else SPACE;
      Adjusted(str, left, zero, inWidth, outWidth) == Filled(str[..n], left, pad, space)
  {
  }

  lemma NumberParts(digits: Bytes, width: nat)
    ensures ZeroPadded(digits, width) == Filled(digits, false, ZERO, if width > |digits| then width - |digits| else 0)
  {
  }

  /** Two stretches written one behind the other. */
  lemma FirstSecond(was: Bytes, mid: Bytes, now: Bytes, t: nat, a: Bytes, b: Bytes)
    requires |was| == |mid| == |now| && t + |a| + |b| <= |was|
    requires mid[..t] == was[..t] && mid[t..t + |a|] == a
    requires now[..t + |a|] == mid[..t + |a|] && now[t + |a|..t + |a| + |b|] == b
    ensures now[..t] == was[..t] && now[t..t + |a| + |b|] == a + b
  {
    forall i | 0 <= i < t
      ensures now[i] == was[i]
    {
      assert now[..t + |a|][i] == mid[..t + |a|][i] && mid[..t][i] == was[..t][i];
    }
    forall i | 0 <= i < |a|
      ensures now[t + i] == a[i]
    {
      assert now[..t + |a|][t + i] == mid[..t + |a|][t + i] && mid[t..t + |a|][i] == a[i];
    }
    forall i | 0 <= i < |b|
      ensures now[t + |a| + i] == b[i]
    {
      assert now[t + |a|..t + |a| + |b|][i] == b[i];
    }
  }

  lemma SecondFirst(was: Bytes, mid: Bytes, now: Bytes, t: nat, a: Bytes, b: Bytes)
    requires |was| == |mid| == |now| && t + |a| + |b| <= |was|
    requires mid[..t + |a|] == was[..t + |a|] && mid[t + |a|..t + |a| + |b|] == b
    requires now[..t] == mid[..t] && now[t..t + |a|] == a && now[t + |a|..] == mid[t + |a|..]
    ensures now[..t] == was[..t] && now[t..t + |a| + |b|] == a + b
  {
    forall i | 0 <= i < t
      ensures now[i] == was[i]
    {
      assert now[..t][i] == mid[..t][i] && mid[..t + |a|][i] == was[..t + |a|][i];
    }
    forall i | 0 <= i < |a|
      ensures now[t + i] == a[i]
    {
      assert now[t..t + |a|][i] == a[i];
    }
    forall i | 0 <= i < |b|
      ensures now[t + |a| + i] == b[i]
    {
      assert now[t + |a|..][i] == mid[t + |a|..][i] && mid[t + |a|..t + |a| + |b|][i] == b[i];
    }
  }

  function Filled(source: Bytes, left: bool, pad: byte, space: nat): (r: Bytes)
    ensures |r| == |source| + space
  {
    if left then source + Repeat(pad, space) else Repeat(pad, space) + source
  }

  /** The first bytes of a filled field: the side written first is cut last. */
  lemma CutFilled(source: Bytes, left: bool, pad: byte, space: nat, a: nat, b: nat)
    requires a <= |source| && b <= space
    requires if left then b == 0 || a == |source| else a == 0 || b == space
    ensures Filled(source, left, pad, space)[..a + b] == Filled(source[..a], left, pad, b)
  {
    hide Repeat;
    RepeatPrefix(pad, space, b);
    var pads := Repeat(pad, space);
    if left {
      assert (source + pads)[..a + b] == source[..a] + pads[..b];
    } else {
      assert (pads + source)[..a + b] == pads[..b] + source[..a];
    }
  }

  lemma {:induction false} RepeatPrefix(b: byte, n: nat, k: nat)
    requires k <= n
    ensures Repeat(b, n)[..k] == Repeat(b, k)
  {
    if k > 0 {
      RepeatPrefix(b, n - 1, k - 1);
    }
  }
  
  // ---- the buffer ----

  class Buf {
    const sizeMin: nat
    const sizeMax: nat
    const truncateStr: Bytes
    var start: array<byte>
    var tail: nat
    var sizeReal: nat

    ghost predicate Valid()
      reads this
    {
      && 0 < sizeMin <= sizeReal == start.Length
      && (sizeMax != 0 ==> sizeReal <= sizeMax)
      && tail < sizeReal
    }

    ghost function Text(): (r: Bytes)
      reads this, start
      requires Valid()
    {
      start[..tail]
    }

    /** zlog_buf_new, after its checks of the arguments. */
    constructor (min: nat, max: nat, marker: Bytes)
      requires min > 0 && (max != 0 ==> min <= max)
      ensures Valid() && Text() == [] && fresh(start) && sizeReal == min
      ensures sizeMin == min && sizeMax == max && truncateStr == marker
    {
      sizeMin, sizeMax, truncateStr := min, max, marker;
      sizeReal := min;
      start := new byte[min];
      tail := 0;
    }

    /** Whether the text and n more bytes exceed what the cap allows. */
    ghost predicate Overflows(n: nat)
      reads this
    {
      sizeMax != 0 && tail + n > sizeMax - 1
    }

    method Truncate()
      requires Valid()
      modifies start
      ensures Valid() && Text() == Marked(old(Text()), truncateStr)
      ensures var k := if |truncateStr| < tail then |truncateStr| else tail;
        Text()[..tail - k] == old(Text())[..tail - k] && Text()[tail - k..] == truncateStr[..k]
    {
      if truncateStr == [] {
        assert Marked(start[..tail], truncateStr) == start[..tail];
        return;
      }
      var p: int := tail - |truncateStr|;
      if p < 0 {
        p := 0;
      }
      var len := tail - p;
      ghost var was := start[..];
      forall i | 0 <= i < len {
        start[p + i] := truncateStr[i];
      }
      assert start[..tail] == was[..p] + truncateStr[..len];
      assert was[..tail][..p] == was[..p];
    }

    /** zlog_buf_resize without allocation failure: 1 if the cap stops the growth short. */
    method Resize(increment: nat) returns (rc: int)
      requires Valid() && increment > 0
      modifies this`start, this`sizeReal
      ensures Valid() && (start == old(start) || fresh(start)) && start[..tail] == old(start[..tail])
      ensures rc == if sizeMax != 0 && old(sizeReal) + increment > sizeMax then 1 else 0
      ensures rc == 1 ==> sizeReal == sizeMax
      ensures rc == 0 ==> sizeReal == old(sizeReal) + if sizeMax == 0 then increment * 3 / 2 else increment
    {
      rc := 0;
      if sizeMax != 0 && sizeReal >= sizeMax {
        return 1;
      }
      var newSize;
      if sizeMax == 0 {
        newSize := sizeReal + increment * 3 / 2;
      } else if sizeReal + increment <= sizeMax {
        newSize := sizeReal + increment;
      } else {
        newSize := sizeMax;
        rc := 1;
      }
      var p := new byte[newSize];
      forall i | 0 <= i < tail {
        p[i] := start[i];
      }
      assert p[..tail] == start[..tail];
      start := p;
      sizeReal := newSize;
    }
  
    /** zlog_buf_new: null for the arguments it refuses. */
    static method Create(min: nat, max: nat, marker: Bytes) returns (b: Buf?)
      ensures b == null <==> min == 0 || (max != 0 && max < min) || |marker| > 1024
      ensures b != null ==> fresh(b) && b.Valid() && b.Text() == []
      ensures b != null ==> b.sizeMin == b.sizeReal == min && b.sizeMax == max && b.truncateStr == marker
    {
      if min == 0 || (max != 0 && max < min) || |marker| > MAXLEN_PATH {
        return null;
      }
      b := new Buf(min, max, marker);
    }

    method Restart()
      requires Valid()
      modifies this`tail
      ensures Valid() && Text() == []
    {
      tail := 0;
    }

    method MemCpy(at: nat, src: Bytes)
      requires at + |src| <= start.Length
      modifies start
      ensures start[at..at + |src|] == src
      ensures start[..at] == old(start[..at]) && start[at + |src|..] == old(start[at + |src|..])
    {
      forall i | 0 <= i < |src| {
        start[at + i] := src[i];
      }
    }

    method MemSet(at: nat, b: byte, n: nat)
      requires at + n <= start.Length
      modifies start
      ensures start[at..at + n] == Repeat(b, n)
      ensures start[..at] == old(start[..at]) && start[at + n..] == old(start[at + n..])
    {
      forall i | 0 <= i < n {
        start[at + i] := b;
      }
    }

    /** What every writer ends with once its bytes are in place. */
    method Advance(n: nat, cut: bool, ghost was: Bytes, ghost piece: Bytes)
      requires Valid() && tail + n < sizeReal && n <= |piece| && cut == (n < |piece|)
      requires start[tail..tail + n] == piece[..n] && Text() == was
      requires cut ==> sizeMax != 0 && sizeReal == sizeMax == tail + n + 1
      modifies this`tail, start
      ensures Valid() && Text() == Final(was + piece, sizeMax, truncateStr)
    {
      assert start[..tail + n] == was + piece[..n];
      tail := tail + n;
      if cut {
        assert (was + piece)[..sizeMax - 1] == was + piece[..n];
        Truncate();
      }
    }

    /** The state a write of piece should leave. */
    twostate predicate Wrote(piece: Bytes, rc: int)
      requires old(Valid())
      reads this, start
    {
      && Valid() && (start == old(start) || fresh(start))
      && rc == (if old(Overflows(|piece|)) then 1 else 0)
      && Text() == Final(old(Text()) + piece, sizeMax, truncateStr)
    }

    /** vsnprintf into the free space: at most sizeLeft - 1 bytes, a terminator, and the length
        the whole text would have had. */
    method Vsnprintf(out: Bytes, sizeLeft: nat) returns (nwrite: nat)
      requires Valid() && sizeLeft == sizeReal - tail
      modifies start
      ensures nwrite == |out| && start[..tail] == old(start[..tail])
      ensures start[tail..tail + Min(|out|, sizeLeft - 1)] == out[..Min(|out|, sizeLeft - 1)]
    {
      var n := Min(|out|, sizeLeft - 1);
      MemCpy(tail, out[..n]);
      ghost var was := start[..tail + n];
      start[tail + n] := NUL;
      assert start[..tail + n] == was;
      assert start[tail..tail + n] == was[tail..];
      assert start[..tail] == was[..tail];
      return |out|;
    }

    method Vprintf(out: Bytes) returns (rc: int)
      requires Valid()
      modifies this, start
      ensures Wrote(out, rc)
    {
      hide Final;
      ghost var was := Text();
      var sizeLeft := sizeReal - tail;
      var nwrite := Vsnprintf(out, sizeLeft);
      if nwrite < sizeLeft {
        Advance(nwrite, false, was, out);
        return 0;
      }
      rc := Resize(nwrite - sizeLeft + 1);
      sizeLeft := sizeReal - tail;
      nwrite := Vsnprintf(out, sizeLeft);
      if rc > 0 {
        Advance(sizeLeft - 1, true, was, out);
        return 1;
      }
      Advance(nwrite, false, was, out);
      return 0;
    }

    method AppendStr(str: Bytes) returns (rc: int)
      requires Valid()
      modifies this, start
      ensures Wrote(str, rc)
    {
      ghost var was := Text();
      if tail + |str| > sizeReal - 1 {
        rc := Resize(tail + |str| - (sizeReal - 1));
        if rc > 0 {
          var lenLeft := sizeReal - 1 - tail;
          MemCpy(tail, str[..lenLeft]);
          Advance(lenLeft, true, was, str);
          return 1;
        }
      }
      MemCpy(tail, str);
      Advance(|str|, false, was, str);
      return 0;
    }
  
    method AdjustAppendStr(str: Bytes, left: bool, zero: bool, inWidth: nat, outWidth: nat) returns (rc: int)
      requires Valid()
      modifies this, start
      ensures Wrote(Adjusted(str, left, zero, inWidth, outWidth), rc)
    {
      hide Repeat, Adjusted, Filled, Final;
      var sourceLen := if outWidth == 0 || |str| < outWidth then |str| else outWidth;
      var spaceLen := 0;
      if inWidth != 0 && sourceLen < inWidth {
        spaceLen := inWidth - sourceLen;
      }
      AdjustedParts(str, left, zero, inWidth, outWidth);
      rc := PutField(str[..sourceLen], left, if !left && zero then ZERO else SPACE, spaceLen);
    }

    /** A field whose source and padding are settled: as much of it as the cap allows. */
    method PutField(source: Bytes, left: bool, pad: byte, space: nat) returns (rc: int)
      requires Valid()
      modifies this, start
      ensures Wrote(Filled(source, left, pad, space), rc)
    {
      hide Repeat, Filled, Final;
      ghost var was, piece := Text(), Filled(source, left, pad, space);
      var appendLen := |source| + space;
      if appendLen > sizeReal - 1 - tail {
        rc := Resize(appendLen - (sizeReal - 1 - tail));
        if rc > 0 {
          PutCut(source, left, pad, space, was);
          return 1;
        }
      }
      LayPadded(source, left, pad, space);
      Advance(appendLen, false, was, piece);
      return 0;
    }

    /** The branch that fills the buffer up to its cap with the front part of the field. */
    method PutCut(source: Bytes, left: bool, pad: byte, space: nat, ghost was: Bytes)
      requires Valid() && sizeMax != 0 && sizeReal == sizeMax && Text() == was
      requires tail + |source| + space > sizeReal - 1
      modifies this`tail, start
      ensures Valid() && Text() == Final(was + Filled(source, left, pad, space), sizeMax, truncateStr)
    {
      hide Repeat, Filled, Final;
      var appendLen := sizeReal - 1 - tail;
      var sourceLen, spaceLen := |source|, space;
      if left {
        if sourceLen < appendLen {
          spaceLen := appendLen - sourceLen;
        } else {
          sourceLen := appendLen;
          spaceLen := 0;
        }
      } else {
        if spaceLen < appendLen {
          sourceLen := appendLen - spaceLen;
        } else {
          spaceLen := appendLen;
          sourceLen := 0;
        }
      }
      LayPadded(source[..sourceLen], left, pad, spaceLen);
      CutFilled(source, left, pad, space, sourceLen, spaceLen);
      Advance(appendLen, true, was, Filled(source, left, pad, space));
    }

    /** memset of the padding and memcpy of the source, in the order of the source. */
    method LayPadded(source: Bytes, left: bool, pad: byte, spaceLen: nat)
      requires tail + |source| + spaceLen <= start.Length
      modifies start
      ensures start[..tail] == old(start[..tail])
      ensures start[tail..tail + |source| + spaceLen] == Filled(source, left, pad, spaceLen)
    {
      if left {
        LayLeft(source, pad, spaceLen);
      } else {
        LayRight(source, pad, spaceLen);
      }
    }

    method LayLeft(source: Bytes, pad: byte, spaceLen: nat)
      requires tail + |source| + spaceLen <= start.Length
      modifies start
      ensures start[..tail] == old(start[..tail])
      ensures start[tail..tail + |source| + spaceLen] == source + Repeat(pad, spaceLen)
    {
      hide *;
      ghost var was := start[..];
      MemSet(tail + |source|, pad, spaceLen);
      ghost var mid := start[..];
      MemCpy(tail, source);
      SecondFirst(was, mid, start[..], tail, source, Repeat(pad, spaceLen));
    }

    method LayRight(source: Bytes, pad: byte, spaceLen: nat)
      requires tail + |source| + spaceLen <= start.Length
      modifies start
      ensures start[..tail] == old(start[..tail])
      ensures start[tail..tail + |source| + spaceLen] == Repeat(pad, spaceLen) + source
    {
      hide *;
      ghost var was := start[..];
      MemSet(tail, pad, spaceLen);
      ghost var mid := start[..];
      MemCpy(tail + spaceLen, source);
      FirstSecond(was, mid, start[..], tail, Repeat(pad, spaceLen), source);
    }

    /** The common end of dec32, dec64 and hex: digits with zeros in front. */
    method PutNumber(digits: Bytes, width: nat) returns (rc: int)
      requires Valid()
      modifies this, start
      ensures Wrote(ZeroPadded(digits, width), rc)
    {
      hide Repeat, ZeroPadded, Filled, Final;
      ghost var was, piece := Text(), ZeroPadded(digits, width);
      var numLen, zeroLen, outLen := |digits|, 0, |digits|;
      if width > numLen {
        zeroLen := width - numLen;
        outLen := width;
      }
      NumberParts(digits, width);
      if tail + outLen > sizeReal - 1 {
        rc := Resize(tail + outLen - (sizeReal - 1));
        if rc > 0 {
          PutCutNumber(digits, zeroLen, was);
          return 1;
        }
      }
      LayPadded(digits, false, ZERO, zeroLen);
      Advance(outLen, false, was, piece);
      return 0;
    }

    /** The branch that fills the buffer up to its cap with zeros and leading digits. */
    method PutCutNumber(digits: Bytes, zeros: nat, ghost was: Bytes)
      requires Valid() && sizeMax != 0 && sizeReal == sizeMax && Text() == was
      requires tail + |digits| + zeros > sizeReal - 1
      modifies this`tail, start
      ensures Valid() && Text() == Final(was + Filled(digits, false, ZERO, zeros), sizeMax, truncateStr)
    {
      hide Repeat, Filled, Final;
      var lenLeft := sizeReal - 1 - tail;
      var zeroLen, numLen := zeros, 0;
      if lenLeft <= zeroLen {
        zeroLen := lenLeft;
      } else {
        numLen := lenLeft - zeroLen;
      }
      LayPadded(digits[..numLen], false, ZERO, zeroLen);
      CutFilled(digits, false, ZERO, zeros, numLen, zeroLen);
      Advance(lenLeft, true, was, Filled(digits, false, ZERO, zeros));
    }

    /** zlog_buf_printf_dec32: the digits are filled in from the back. */
    method PrintfDec32(ui32: nat, width: nat) returns (rc: int)
      requires Valid() && ui32 <= MAX_UINT32
      modifies this, start
      ensures Wrote(Piece(Dec32(ui32, width)), rc)
    {
      assert ui32 < Power(10, 10);
      RadixLength(ui32, 10, 10);
      var digits := DigitsOf(ui32, 10, INT32_LEN);
      rc := PutNumber(digits, width);
    }

    method PrintfDec64(ui64: nat, width: nat) returns (rc: int)
      requires Valid() && ui64 <= MAX_UINT64
      modifies this, start
      ensures Wrote(Piece(Dec64(ui64, width)), rc)
    {
      PowerOfTwenty();
      RadixLength(ui64, 10, 20);
      var digits := DigitsOf(ui64, 10, INT64_LEN);
      rc := PutNumber(digits, width);
    }

    method PrintfHex(ui32: nat, width: nat) returns (rc: int)
      requires Valid() && ui32 <= MAX_UINT32
      modifies this, start
      ensures Wrote(Piece(Hex(ui32, width)), rc)
    {
      RadixLength(ui32, 16, 8);
      var digits := DigitsOf(ui32, 16, INT32_LEN);
      rc := PutNumber(digits, width);
    }
  }

  method DoWrite(b: Buf, w: Write) returns (rc: int)
    requires b.Valid() && InRange(w)
    modifies b, b.start
    ensures b.Wrote(Piece(w), rc)
  {
    match w
    case Printf(out) => rc := b.Vprintf(out);
    case Append(str) => rc := b.AppendStr(str);
    case AdjustAppend(str, left, zero, inWidth, outWidth) =>
      rc := b.AdjustAppendStr(str, left, zero, inWidth, outWidth);
    case Dec32(n, width) => rc := b.PrintfDec32(n, width);
    case Dec64(n, width) => rc := b.PrintfDec64(n, width);
    case Hex(n, width) => rc := b.PrintfHex(n, width);
  }

  /** A whole message from a restarted buffer: only the concatenation of the pieces counts, and
      some write reports a cut iff that concatenation is longer than the cap allows. */
  method WriteAll(b: Buf, ws: seq<Write>) returns (cut: bool)
    requires b.Valid() && forall w | w in ws :: InRange(w)
    modifies b, b.start
    ensures b.Valid() && (b.start == old(b.start) || fresh(b.start))
    ensures b.Text() == Final(Pieces(ws), b.sizeMax, b.truncateStr)
    ensures Shown(b.Text(), Pieces(ws), b.sizeMax, b.truncateStr)
    ensures cut <==> b.sizeMax != 0 && |Pieces(ws)| > b.sizeMax - 1
  {
    hide Piece, InRange, Final, Shown;
    b.Restart();
    cut := false;
    var i := 0;
    FinalStart(b.sizeMax, b.truncateStr);
    while i < |ws|
      invariant i <= |ws| && b.Valid() && (b.start == old(b.start) || fresh(b.start))
      invariant b.Text() == Final(Pieces(ws[..i]), b.sizeMax, b.truncateStr)
      invariant cut <==> b.sizeMax != 0 && |Pieces(ws[..i])| > b.sizeMax - 1
    {
      assert ws[i] in ws;
      assert ws[..i + 1][..i] == ws[..i];
      FinalLength(Pieces(ws[..i]), b.sizeMax, b.truncateStr);
      FinalStep(Pieces(ws[..i]), Piece(ws[i]), b.sizeMax, b.truncateStr);
      var rc := DoWrite(b, ws[i]);
      cut := cut || rc > 0;
      i := i + 1;
    }
    assert ws[..i] == ws;
    FinalShown(Pieces(ws), b.sizeMax, b.truncateStr);
  }

  lemma FinalStart(cap: nat, marker: Bytes)
    ensures Final([], cap, marker) == []
  {
  }

  lemma FinalLength(s: Bytes, cap: nat, marker: Bytes)
    ensures |Final(s, cap, marker)| == if cap == 0 then |s| else Min(|s|, cap - 1)
  {
  }

  lemma PowerOfTwenty()
    ensures Power(10, 20) == 100_000_000_000_000_000_000
  {
    assert Power(10, 4) == 10_000;
    assert Power(10, 8) == 100_000_000;
    assert Power(10, 12) == 1_000_000_000_000;
    assert Power(10, 16) == 10_000_000_000_000_000;
  }

  /** The digit loop: a scratch array filled from the back, least significant digit first. */
  method DigitsOf(n: nat, base: nat, size: nat) returns (digits: Bytes)
    requires Base(base) && |Radix(n, base)| <= size
    ensures digits == Radix(n, base)
  {
    var tmp := new byte[size + 1];
    var p, left: nat := size, n;
    ghost var all := Radix(n, base);
    while true
      invariant 0 < p <= size && |Radix(left, base)| <= p
      invariant all == Radix(left, base) + tmp[p..size]
      decreases left
    {
      p := p - 1;
      tmp[p] := Digit(left % base);
      if left / base == 0 {
        break;
      }
      left := left / base;
    }
    return tmp[p..size];
  }
}
