/**
 zlog rules: which levels a rule lets through, the bitmap built from that, and which categories
 it fits.
 */
module ZlogRule {
  import opened Text

  const BITMAP: nat := 32
  const LEVELS: nat := 256

  const EQUAL: byte := 61
  const NOT: byte := 33
  const UNDERSCORE: byte := 95

  datatype Rule = Rule(category: Bytes, compare: byte, level: nat, bitmap: seq<bv8>)

  /** The decision of zlog_rule_output. */
  predicate Outputs(compare: byte, level: nat, lv: nat) {
    if compare == STAR then true
    else if compare == DOT then lv >= level
    else if compare == EQUAL then lv == level
    else if compare == NOT then lv != level
    else false
  }

  // ---- bits ----

  predicate Bit(b: bv8, j: nat)
    requires j < 8
  {
    (b >> (7 - j)) & 1 == 1
  }

  function One(k: nat): bv8
    requires k < 8
  {
    1 << (7 - k)
  }

  /** ~(0xFF << (8 - k)), cut to a byte. */
  function Tail(k: nat): bv8
    requires k < 8
  {
    !(0xFF << (8 - k))
  }

  lemma OneBits(k: nat, j: nat)
    requires k < 8 && j < 8
    ensures Bit(One(k), j) <==> j == k
  {
  }

  lemma TailBits(k: nat, j: nat)
    requires k < 8 && j < 8
    ensures Bit(Tail(k), j) <==> j >= k
  {
  }

  lemma OrBits(a: bv8, b: bv8, j: nat)
    requires j < 8
    ensures Bit(a | b, j) <==> Bit(a, j) || Bit(b, j)
  {
  }

  lemma ClearBits(a: bv8, b: bv8, j: nat)
    requires j < 8
    ensures Bit(a & !b, j) <==> Bit(a, j) && !Bit(b, j)
  {
  }

  lemma PlainBits(j: nat)
    requires j < 8
    ensures !Bit(0, j) && Bit(0xFF, j)
  {
  }

  // ---- the level bitmap ----

  /** What zlog_category_needless_level looks at. */
  predicate LevelBit(bitmap: seq<bv8>, lv: nat)
    requires |bitmap| == BITMAP && lv < LEVELS
  {
    Bit(bitmap[lv / 8], lv % 8)
  }

  /** The bitmap says level by level what the rule would do. */
  predicate Faithful(r: Rule) {
    |r.bitmap| == BITMAP && forall lv | 0 <= lv < LEVELS :: LevelBit(r.bitmap, lv) <==> Outputs(r.compare, r.level, lv)
  }

  function CompareOf(first: byte): byte {
    if first == EQUAL || first == NOT || first == STAR then first else DOT
  }

  method MemSet(a: array<bv8>, start: nat, b: bv8)
    requires start <= a.Length
    modifies a
    ensures forall i | 0 <= i < a.Length :: a[i] == if i < start then old(a[i]) else b
  {
    forall i | start <= i < a.Length {
      a[i] := b;
    }
  }

  /** The part of zlog_rule_new that reads the level mark and fills the bitmap. */
  method NewRule(category: Bytes, first: byte, level: nat) returns (r: Rule)
    requires level < LEVELS
    ensures r.category == category && r.compare == CompareOf(first) && r.level == level && Faithful(r)
  {
    var compare := CompareOf(first);
    var bitmap := BuildBitmap(compare, level);
    r := Rule(category, compare, level, bitmap);
  }

  method BuildBitmap(compare: byte, level: nat) returns (bitmap: seq<bv8>)
    requires level < LEVELS && compare in {EQUAL, NOT, STAR, DOT}
    ensures |bitmap| == BITMAP && forall lv | 0 <= lv < LEVELS :: LevelBit(bitmap, lv) <==> Outputs(compare, level, lv)
  {
    hide LevelBit, Bit, One, Tail, Outputs;
    var a := new bv8[BITMAP];
    var at, k := level / 8, level % 8;
    if compare == EQUAL {
      MemSet(a, 0, 0);
      a[at] := a[at] | One(k);
    } else if compare == NOT {
      MemSet(a, 0, 0xFF);
      a[at] := a[at] & !One(k);
    } else if compare == STAR {
      MemSet(a, 0, 0xFF);
    } else {
      MemSet(a, 0, 0);
      a[at] := a[at] | Tail(k);
      MemSet(a, at + 1, 0xFF);
    }
    bitmap := a[..];
    forall lv | 0 <= lv < LEVELS
      ensures LevelBit(bitmap, lv) <==> Outputs(compare, level, lv)
    {
      LevelCase(bitmap, compare, level, lv);
    }
  }

  /** One level of the bitmap just built. */
  lemma LevelCase(b: seq<bv8>, compare: byte, level: nat, lv: nat)
    requires |b| == BITMAP && level < LEVELS && lv < LEVELS
    requires compare == EQUAL ==> b[lv / 8] == if lv / 8 == level / 8 then 0 | One(level % 8) else 0
    requires compare == NOT ==> b[lv / 8] == if lv / 8 == level / 8 then 0xFF & !One(level % 8) else 0xFF
    requires compare == STAR ==> b[lv / 8] == 0xFF
    requires compare == DOT ==>
      b[lv / 8] == if lv / 8 < level / 8 then 0 else if lv / 8 == level / 8 then 0 | Tail(level % 8) else 0xFF
    requires compare in {EQUAL, NOT, STAR, DOT}
    ensures LevelBit(b, lv) <==> Outputs(compare, level, lv)
  {
    hide Bit, One, Tail;
    var j, k := lv % 8, level % 8;
    PlainBits(j);
    OneBits(k, j);
    TailBits(k, j);
    OrBits(0, One(k), j);
    OrBits(0, Tail(k), j);
    ClearBits(0xFF, One(k), j);
    assert lv == lv / 8 * 8 + j && level == level / 8 * 8 + k;
  }

  // ---- categories ----

  predicate IsWastebin(r: Rule) { r.category == [NOT] }

  /** zlog_rule_match_category, on categories that are not empty. */
  method MatchCategory(r: Rule, category: Bytes) returns (fit: bool)
    requires r.category != []
    ensures fit <==> Fits(r, category)
  {
    if r.category == [STAR] {
      return true;
    } else if r.category == category {
      return true;
    } else {
      var len := |r.category|;
      if r.category[len - 1] == UNDERSCORE {
        if |category| == len - 1 {
          len := len - 1;
        }
        StartsWithIff(category, r.category[..len]);
        if StartsWith(category, r.category[..len]) {
          return true;
        }
      }
    }
    return false;
  }

  /** "*" fits all, a name fits itself, "aa_" fits "aa" and everything that starts with "aa_". */
  predicate Fits(r: Rule, category: Bytes) {
    || r.category == [STAR]
    || r.category == category
    || (r.category != [] && r.category[|r.category| - 1] == UNDERSCORE
        && (category == r.category[..|r.category| - 1] || r.category <= category))
  }

  lemma StartsWithIff(s: Bytes, w: Bytes)
    ensures StartsWith(s, w) <==> w <= s
  {
    if StartsWith(s, w) {
      StartsWithLength(s, w);
    } else if w <= s {
      assert s == w + s[|w|..];
      StartsWithPrefix(w, s[|w|..]);
    }
  }

  // ---- the marks of the configuration file, by their codes ----

  /** What a rule lets through by the byte in front of its level: 42 '*' everything, 61 '=' that level,
      33 '!' any other, and without one of these the level and everything above it. */
  predicate Passes(mark: byte, level: nat, lv: nat) {
    if mark == 42 then true else if mark == 61 then lv == level else if mark == 33 then lv != level else lv >= level
  }

  /** A rule's bitmap has, for each level it lets through and for no other, the bit of that level: levels
      in bytes of eight, the lowest in the highest bit. */
  lemma RuleMarks(r: Rule, mark: byte, lv: nat)
    requires lv < 256 && Faithful(r) && r.compare == CompareOf(mark)
    ensures |r.bitmap| == 32 && (r.bitmap[lv / 8] & (0x80 >> (lv % 8)) != 0 <==> Passes(mark, r.level, lv))
    ensures Outputs(r.compare, r.level, lv) <==> Passes(mark, r.level, lv)
  {
    hide Bit;
    assert LevelBit(r.bitmap, lv) <==> Outputs(r.compare, r.level, lv);
    MaskBits(r.bitmap[lv / 8], lv % 8);
  }

  lemma MaskBits(b: bv8, j: nat)
    requires j < 8
    ensures b & (0x80 >> j) != 0 <==> Bit(b, j)
  {
    MaskBit(b, j as bv8);
    assert j == 0 || j == 1 || j == 2 || j == 3 || j == 4 || j == 5 || j == 6 || j == 7;
  }

  lemma MaskBit(b: bv8, j: bv8)
    requires j < 8
    ensures b & (0x80 >> j) != 0 <==> (b >> (7 - j)) & 1 == 1
  {
  }

  /** A rule for "*" is for every category, one for "aa_" for "aa" and for whatever starts with "aa_", and
      any other for the category of its name. */
  lemma RuleNames(r: Rule, category: Bytes)
    ensures r.category == [42] ==> Fits(r, category)
    ensures r.category != [42] && (r.category == [] || r.category[|r.category| - 1] != 95)
      ==> (Fits(r, category) <==> r.category == category)
    ensures forall base | r.category == base + [95] ::
      Fits(r, category) <==> category == base || exists tail :: category == base + ([95] + tail)
    ensures IsWastebin(r) <==> r.category == [33]
  {
    forall base | r.category == base + [95]
      ensures Fits(r, category) <==> category == base || exists tail :: category == base + ([95] + tail)
    {
      UnderscoreNames(r, base, category);
    }
  }

  lemma UnderscoreNames(r: Rule, base: Bytes, category: Bytes)
    requires r.category == base + [95]
    ensures Fits(r, category) <==> category == base || exists tail :: category == base + ([95] + tail)
  {
    assert r.category[..|r.category| - 1] == base;
    if r.category <= category {
      assert category == base + ([95] + category[|r.category|..]);
    }
    if category == r.category {
      assert category == base + ([95] + []);
    }
    if tail :| category == base + ([95] + tail) {
      assert category == r.category + tail;
    }
  }
}
