/**
 cJSON_Compare and cJSON_Duplicate. Comparison is symmetric on all trees; on integer payloads it
 decides exactly whether two trees mean the same, order of members aside, and no object gives
 one key two meanings.
 */
module CJsonCompare {
  import opened Text
  import opened CJsonValue

  // ---- keys and numbers ----

  function Lower(s: Bytes): (r: Bytes)
    ensures |r| == |s|
  {
    if s == [] then [] else [if 65 <= s[0] <= 90 then s[0] + 32 else s[0]] + Lower(s[1..])
  }

  /** Two keys match iff they fold to the same bytes. */
  function Fold(name: Bytes, sensitive: bool): Bytes {
    if sensitive then CString(name) else Lower(CString(name))
  }

  function PowerOfTen(e: int): real
    decreases if e < 0 then -e else e
  {
    if e == 0 then 1.0 else if e > 0 then 10.0 * PowerOfTen(e - 1) else PowerOfTen(e + 1) / 10.0
  }

  function RealOf(d: Decimal): real { d.mant as real * PowerOfTen(d.exp) }

  function Abs(x: real): real { if x < 0.0 then -x else x }

  /** compare_double, over the reals: DBL_EPSILON is 2^-52. */
  predicate SameNumber(a: Decimal, b: Decimal) {
    var x, y := RealOf(a), RealOf(b);
    var max := if Abs(x) > Abs(y) then Abs(x) else Abs(y);
    Abs(x - y) <= max / 4503599627370496.0
  }

  lemma SameInteger(a: Decimal, b: Decimal)
    requires PlainInteger(a) && PlainInteger(b)
    ensures SameNumber(a, b) <==> a == b
  {
    var x, y := RealOf(a), RealOf(b);
    assert x == a.mant as real && y == b.mant as real;
    if a.mant != b.mant {
      assert Abs(x - y) >= 1.0;
    }
  }

  // ---- the comparison ----

  function Size(v: Json): nat {
    if v.Array? || v.Object? then 1 + ChainSize(v.child) else 1
  }

  function ChainSize(c: Chain): nat {
    match c
    case End => 0
    case Node(_, v, next) => 1 + Size(v) + ChainSize(next)
  }

  /** get_object_item: a case-sensitive search ends at the first member without a name. */
  function Lookup(c: Chain, name: Option<Bytes>, sensitive: bool): (r: Option<Json>)
    ensures r.Some? ==> Size(r.value) < ChainSize(c)
  {
    if name == None || c == End then None
    else if c.name == None then (if sensitive then None else Lookup(c.next, name, sensitive))
    else if Fold(name.value, sensitive) == Fold(c.name.value, sensitive) then Some(c.item)
    else Lookup(c.next, name, sensitive)
  }

  predicate Same(a: Json, b: Json, sensitive: bool)
    decreases Size(a) + Size(b), 0
  {
    match a
    case Null => b.Null?
    case False => b.False?
    case True => b.True?
    case Number(x) => b.Number? && SameNumber(x, b.num)
    case String(s) => b.String? && CString(s) == CString(b.str)
    case Array(c) => b.Array? && SameItems(c, b.child, sensitive)
    case Object(c) => b.Object? && Covered(c, b.child, sensitive) && Covered(b.child, c, sensitive)
  }

  predicate SameItems(a: Chain, b: Chain, sensitive: bool)
    decreases ChainSize(a) + ChainSize(b), 0
  {
    if a == End || b == End then a == b
    else Same(a.item, b.item, sensitive) && SameItems(a.next, b.next, sensitive)
  }

  /** Every member of a has an equal one of its name in b. */
  predicate Covered(a: Chain, b: Chain, sensitive: bool)
    decreases ChainSize(a) + ChainSize(b), 0
  {
    if a == End then true
    else
      var w := Lookup(b, a.name, sensitive);
      w.Some? && Same(a.item, w.value, sensitive) && Covered(a.next, b, sensitive)
  }

  /** Comparison does not depend on the order of its operands, on any two trees. */
  lemma {:induction false} SameSymmetric(a: Json, b: Json, sensitive: bool)
    ensures Same(a, b, sensitive) == Same(b, a, sensitive)
    decreases Size(a) + Size(b), 0
  {
    if a.Array? && b.Array? {
      SameItemsSymmetric(a.child, b.child, sensitive);
    }
  }

  lemma {:induction false} SameItemsSymmetric(a: Chain, b: Chain, sensitive: bool)
    ensures SameItems(a, b, sensitive) == SameItems(b, a, sensitive)
    decreases ChainSize(a) + ChainSize(b), 0
  {
    if a.Node? && b.Node? {
      SameSymmetric(a.item, b.item, sensitive);
      SameItemsSymmetric(a.next, b.next, sensitive);
    }
  }

  // ---- what a tree means ----

  datatype Meaning =
    | Nothing
    | Truth(b: bool)
    | Int(n: int)
    | Str(s: Bytes)
    | List(items: seq<Meaning>)
    | Dict(members: map<Bytes, Meaning>)

  /** Of several members with one key, the first counts. */
  function MeaningOf(v: Json, sensitive: bool): Meaning {
    match v
    case Null => Nothing
    case False => Truth(false)
    case True => Truth(true)
    case Number(d) => Int(d.mant)
    case String(s) => Str(CString(s))
    case Array(c) => List(ItemsOf(c, sensitive))
    case Object(c) => Dict(MembersOf(c, sensitive))
  }

  function ItemsOf(c: Chain, sensitive: bool): seq<Meaning> {
    match c
    case End => []
    case Node(_, v, next) => [MeaningOf(v, sensitive)] + ItemsOf(next, sensitive)
  }

  function MembersOf(c: Chain, sensitive: bool): map<Bytes, Meaning> {
    match c
    case End => map[]
    case Node(name, v, next) =>
      if name == None then MembersOf(next, sensitive)
      else MembersOf(next, sensitive)[Fold(name.value, sensitive) := MeaningOf(v, sensitive)]
  }

  predicate Named(c: Chain) {
    c.Node? ==> c.name.Some? && Named(c.next)
  }

  /** Every member of c is an entry of m. */
  predicate Within(c: Chain, m: map<Bytes, Meaning>, sensitive: bool)
    requires Named(c)
  {
    c.Node? ==>
      && Fold(c.name.value, sensitive) in m
      && m[Fold(c.name.value, sensitive)] == MeaningOf(c.item, sensitive)
      && Within(c.next, m, sensitive)
  }

  /** Every member of every object has a name, and members with one key mean the same. */
  predicate Coherent(v: Json, sensitive: bool) {
    match v
    case Array(c) => AllCoherent(c, sensitive)
    case Object(c) => Named(c) && AllCoherent(c, sensitive) && Within(c, MembersOf(c, sensitive), sensitive)
    case _ => true
  }

  predicate AllCoherent(c: Chain, sensitive: bool) {
    c.Node? ==> Coherent(c.item, sensitive) && AllCoherent(c.next, sensitive)
  }

  lemma {:induction false} LookupFinds(c: Chain, name: Bytes, sensitive: bool)
    requires Named(c)
    ensures Lookup(c, Some(name), sensitive).Some? <==> Fold(name, sensitive) in MembersOf(c, sensitive)
    ensures Lookup(c, Some(name), sensitive).Some? ==>
      MeaningOf(Lookup(c, Some(name), sensitive).value, sensitive) == MembersOf(c, sensitive)[Fold(name, sensitive)]
    ensures Lookup(c, Some(name), sensitive).Some? && AllCoherent(c, sensitive) ==>
      Coherent(Lookup(c, Some(name), sensitive).value, sensitive)
    ensures Lookup(c, Some(name), sensitive).Some? && ChainPrintable(c) ==>
      Printable(Lookup(c, Some(name), sensitive).value)
  {
    if c.Node? {
      LookupFinds(c.next, name, sensitive);
    }
  }

  /** On integer payloads Compare holds iff both trees are coherent and mean the same. */
  lemma {:induction false} SameMeaning(a: Json, b: Json, sensitive: bool)
    requires Printable(a) && Printable(b)
    ensures Same(a, b, sensitive) <==>
      Coherent(a, sensitive) && Coherent(b, sensitive) && MeaningOf(a, sensitive) == MeaningOf(b, sensitive)
    decreases Size(a) + Size(b), 1
  {
    if a.Number? && b.Number? {
      SameInteger(a.num, b.num);
    } else if a.Array? && b.Array? {
      SameItemsMeaning(a.child, b.child, sensitive);
    } else if a.Object? && b.Object? {
      ObjectsMeaning(a.child, b.child, sensitive);
    }
  }

  lemma {:induction false} SameItemsMeaning(a: Chain, b: Chain, sensitive: bool)
    requires ChainPrintable(a) && ChainPrintable(b)
    ensures SameItems(a, b, sensitive) <==>
      AllCoherent(a, sensitive) && AllCoherent(b, sensitive) && ItemsOf(a, sensitive) == ItemsOf(b, sensitive)
    decreases ChainSize(a) + ChainSize(b), 1
  {
    if a.Node? && b.Node? {
      SameMeaning(a.item, b.item, sensitive);
      SameItemsMeaning(a.next, b.next, sensitive);
      assert ItemsOf(a, sensitive)[1..] == ItemsOf(a.next, sensitive);
      assert ItemsOf(b, sensitive)[1..] == ItemsOf(b.next, sensitive);
    }
  }

  lemma {:induction false} CoveredNamed(a: Chain, b: Chain, sensitive: bool)
    requires Covered(a, b, sensitive)
    ensures Named(a)
  {
    if a.Node? {
      CoveredNamed(a.next, b, sensitive);
    }
  }

  lemma {:induction false} CoveredMeans(a: Chain, b: Chain, sensitive: bool)
    requires ChainPrintable(a) && ChainPrintable(b) && Named(a) && Named(b)
    requires Covered(a, b, sensitive)
    ensures AllCoherent(a, sensitive) && Within(a, MembersOf(b, sensitive), sensitive)
    decreases ChainSize(a) + ChainSize(b), 1
  {
    if a.Node? {
      LookupFinds(b, a.name.value, sensitive);
      SameMeaning(a.item, Lookup(b, a.name, sensitive).value, sensitive);
      CoveredMeans(a.next, b, sensitive);
    }
  }

  lemma {:induction false} CoveredHolds(a: Chain, b: Chain, sensitive: bool)
    requires ChainPrintable(a) && ChainPrintable(b) && Named(a) && Named(b)
    requires AllCoherent(a, sensitive) && AllCoherent(b, sensitive) && Within(a, MembersOf(b, sensitive), sensitive)
    ensures Covered(a, b, sensitive)
    decreases ChainSize(a) + ChainSize(b), 1
  {
    if a.Node? {
      LookupFinds(b, a.name.value, sensitive);
      SameMeaning(a.item, Lookup(b, a.name, sensitive).value, sensitive);
      CoveredHolds(a.next, b, sensitive);
    }
  }

  lemma {:induction false} WithinCovers(c: Chain, m: map<Bytes, Meaning>, sensitive: bool)
    requires Named(c) && Within(c, m, sensitive)
    ensures forall k | k in MembersOf(c, sensitive) :: k in m && m[k] == MembersOf(c, sensitive)[k]
  {
    if c.Node? {
      WithinCovers(c.next, m, sensitive);
    }
  }

  lemma {:induction false} ObjectsMeaning(a: Chain, b: Chain, sensitive: bool)
    requires ChainPrintable(a) && ChainPrintable(b)
    ensures Covered(a, b, sensitive) && Covered(b, a, sensitive) <==>
      && Coherent(Object(a), sensitive) && Coherent(Object(b), sensitive)
      && MembersOf(a, sensitive) == MembersOf(b, sensitive)
    decreases ChainSize(a) + ChainSize(b), 2
  {
    hide Covered;
    if Covered(a, b, sensitive) && Covered(b, a, sensitive) {
      CoveredNamed(a, b, sensitive);
      CoveredNamed(b, a, sensitive);
      CoveredMeans(a, b, sensitive);
      CoveredMeans(b, a, sensitive);
      WithinCovers(a, MembersOf(b, sensitive), sensitive);
      WithinCovers(b, MembersOf(a, sensitive), sensitive);
      assert MembersOf(a, sensitive) == MembersOf(b, sensitive);
    }
    if Coherent(Object(a), sensitive) && Coherent(Object(b), sensitive)
       && MembersOf(a, sensitive) == MembersOf(b, sensitive) {
      CoveredHolds(a, b, sensitive);
      CoveredHolds(b, a, sensitive);
    }
  }

  lemma SameTransitive(a: Json, b: Json, c: Json, sensitive: bool)
    requires Printable(a) && Printable(b) && Printable(c)
    requires Same(a, b, sensitive) && Same(b, c, sensitive)
    ensures Same(a, c, sensitive)
  {
    SameMeaning(a, b, sensitive);
    SameMeaning(b, c, sensitive);
    SameMeaning(a, c, sensitive);
  }

  // ---- distinct keys ----

  predicate DistinctKeys(v: Json, sensitive: bool) {
    match v
    case Array(c) => DistinctBelow(c, sensitive)
    case Object(c) => Named(c) && DistinctAmong(c, sensitive) && DistinctBelow(c, sensitive)
    case _ => true
  }

  predicate DistinctBelow(c: Chain, sensitive: bool) {
    c.Node? ==> DistinctKeys(c.item, sensitive) && DistinctBelow(c.next, sensitive)
  }

  predicate DistinctAmong(c: Chain, sensitive: bool)
    requires Named(c)
  {
    c.Node? ==> Lookup(c.next, c.name, sensitive) == None && DistinctAmong(c.next, sensitive)
  }

  lemma {:induction false} WithinMore(c: Chain, m: map<Bytes, Meaning>, key: Bytes, x: Meaning, sensitive: bool)
    requires Named(c) && Within(c, m, sensitive) && key !in MembersOf(c, sensitive)
    ensures Within(c, m[key := x], sensitive)
  {
    if c.Node? {
      WithinMore(c.next, m, key, x, sensitive);
    }
  }

  lemma {:induction false} DistinctWithin(c: Chain, sensitive: bool)
    requires Named(c) && DistinctAmong(c, sensitive)
    ensures Within(c, MembersOf(c, sensitive), sensitive)
  {
    if c.Node? {
      DistinctWithin(c.next, sensitive);
      LookupFinds(c.next, c.name.value, sensitive);
      WithinMore(c.next, MembersOf(c.next, sensitive), Fold(c.name.value, sensitive), MeaningOf(c.item, sensitive),
        sensitive);
    }
  }

  lemma {:induction false} DistinctCoherent(v: Json, sensitive: bool)
    requires DistinctKeys(v, sensitive)
    ensures Coherent(v, sensitive)
  {
    if v.Array? || v.Object? {
      DistinctBelowCoherent(v.child, sensitive);
    }
    if v.Object? {
      DistinctWithin(v.child, sensitive);
    }
  }

  lemma {:induction false} DistinctBelowCoherent(c: Chain, sensitive: bool)
    requires DistinctBelow(c, sensitive)
    ensures AllCoherent(c, sensitive)
  {
    if c.Node? {
      DistinctCoherent(c.item, sensitive);
      DistinctBelowCoherent(c.next, sensitive);
    }
  }

  /** On trees with distinct keys Compare is equality of the key-to-value maps. */
  lemma DistinctSame(a: Json, b: Json, sensitive: bool)
    requires Printable(a) && Printable(b) && DistinctKeys(a, sensitive) && DistinctKeys(b, sensitive)
    ensures Same(a, b, sensitive) <==> MeaningOf(a, sensitive) == MeaningOf(b, sensitive)
  {
    DistinctCoherent(a, sensitive);
    DistinctCoherent(b, sensitive);
    SameMeaning(a, b, sensitive);
  }

  // ---- cJSON_Duplicate ----

  function CopyName(name: Option<Bytes>): Option<Bytes> {
    if name == None then None else Some(CString(name.value))
  }

  function Duplicate(v: Json, recurse: bool): Json {
    match v
    case String(s) => String(CString(s))
    case Array(c) => Array(if recurse then DuplicateChain(c) else End)
    case Object(c) => Object(if recurse then DuplicateChain(c) else End)
    case _ => v
  }

  function DuplicateChain(c: Chain): Chain {
    match c
    case End => End
    case Node(name, v, next) => Node(CopyName(name), Duplicate(v, true), DuplicateChain(next))
  }

  lemma CopyFolds(name: Bytes, sensitive: bool)
    ensures Fold(CString(name), sensitive) == Fold(name, sensitive)
  {
  }

  lemma {:induction false} DuplicateMeans(v: Json, sensitive: bool)
    ensures MeaningOf(Duplicate(v, true), sensitive) == MeaningOf(v, sensitive)
    ensures Coherent(Duplicate(v, true), sensitive) == Coherent(v, sensitive)
    ensures Printable(Duplicate(v, true)) == Printable(v)
  {
    if v.Array? || v.Object? {
      DuplicateChainMeans(v.child, sensitive);
    }
    if v.Object? && Named(v.child) {
      DuplicateWithin(v.child, MembersOf(v.child, sensitive), sensitive);
    }
  }

  lemma {:induction false} DuplicateChainMeans(c: Chain, sensitive: bool)
    ensures ItemsOf(DuplicateChain(c), sensitive) == ItemsOf(c, sensitive)
    ensures MembersOf(DuplicateChain(c), sensitive) == MembersOf(c, sensitive)
    ensures AllCoherent(DuplicateChain(c), sensitive) == AllCoherent(c, sensitive)
    ensures ChainPrintable(DuplicateChain(c)) == ChainPrintable(c)
    ensures Named(DuplicateChain(c)) == Named(c)
  {
    if c.Node? {
      DuplicateMeans(c.item, sensitive);
      DuplicateChainMeans(c.next, sensitive);
      if c.name.Some? {
        CopyFolds(c.name.value, sensitive);
      }
    }
  }

  lemma {:induction false} DuplicateWithin(c: Chain, m: map<Bytes, Meaning>, sensitive: bool)
    requires Named(c)
    ensures Named(DuplicateChain(c)) && Within(DuplicateChain(c), m, sensitive) == Within(c, m, sensitive)
  {
    if c.Node? {
      DuplicateMeans(c.item, sensitive);
      DuplicateWithin(c.next, m, sensitive);
      CopyFolds(c.name.value, sensitive);
    }
  }

  /** A tree compares equal to its duplicate iff it is coherent; distinct keys suffice. */
  lemma DuplicateSame(v: Json, sensitive: bool)
    requires Printable(v)
    ensures Same(v, Duplicate(v, true), sensitive) <==> Coherent(v, sensitive)
    ensures DistinctKeys(v, sensitive) ==> Same(v, Duplicate(v, true), sensitive)
  {
    DuplicateMeans(v, sensitive);
    SameMeaning(v, Duplicate(v, true), sensitive);
    if DistinctKeys(v, sensitive) {
      DistinctCoherent(v, sensitive);
    }
  }

  /** Two different values under one key: the tree is not equal to its own duplicate. */
  lemma RepeatedKeyDiffers(name: Bytes, m: int, n: int, sensitive: bool)
    requires PlainInteger(Decimal(m, 0)) && PlainInteger(Decimal(n, 0)) && m != n
    ensures var v := Object(Node(Some(name), Number(Decimal(m, 0)), Node(Some(name), Number(Decimal(n, 0)), End)));
      !Same(v, Duplicate(v, true), sensitive)
  {
    var c := Node(Some(name), Number(Decimal(m, 0)), Node(Some(name), Number(Decimal(n, 0)), End));
    assert Printable(c.next.item) && ChainPrintable(c.next.next);
    assert Printable(c.item) && ChainPrintable(c.next);
    assert !Within(c.next, MembersOf(c, sensitive), sensitive);
    DuplicateSame(Object(c), sensitive);
  }

  // ---- the loops of the library ----

  method GetObjectItem(c: Chain, name: Option<Bytes>, sensitive: bool) returns (r: Option<Json>)
    ensures r == Lookup(c, name, sensitive)
  {
    if name == None {
      return None;
    }
    var current := c;
    if sensitive {
      while current.Node? && current.name.Some? && CString(name.value) != CString(current.name.value)
        invariant Lookup(current, name, sensitive) == Lookup(c, name, sensitive)
        decreases current
      {
        current := current.next;
      }
    } else {
      while current.Node? && (current.name == None || Lower(CString(name.value)) != Lower(CString(current.name.value)))
        invariant Lookup(current, name, sensitive) == Lookup(c, name, sensitive)
        decreases current
      {
        current := current.next;
      }
    }
    if current.End? || current.name == None {
      return None;
    }
    return Some(current.item);
  }

  method Compare(a: Json, b: Json, sensitive: bool) returns (same: bool)
    ensures same == Same(a, b, sensitive)
    decreases Size(a) + Size(b), 0
  {
    if a.Array? && b.Array? {
      var x, y := a.child, b.child;
      while x.Node? && y.Node?
        invariant ChainSize(x) <= ChainSize(a.child) && ChainSize(y) <= ChainSize(b.child)
        invariant SameItems(x, y, sensitive) == SameItems(a.child, b.child, sensitive)
        decreases x
      {
        var equal := Compare(x.item, y.item, sensitive);
        if !equal {
          return false;
        }
        x, y := x.next, y.next;
      }
      return x.End? && y.End?;
    }
    if a.Object? && b.Object? {
      var covered := Cover(a.child, b.child, sensitive);
      if !covered {
        return false;
      }
      same := Cover(b.child, a.child, sensitive);
      return;
    }
    return
      match a
      case Null => b.Null?
      case False => b.False?
      case True => b.True?
      case Number(x) => b.Number? && SameNumber(x, b.num)
      case String(s) => b.String? && CString(s) == CString(b.str)
      case _ => false;
  }

  /** One of the two passes over an object's members. */
  method Cover(a: Chain, b: Chain, sensitive: bool) returns (covered: bool)
    ensures covered == Covered(a, b, sensitive)
    decreases ChainSize(a) + ChainSize(b), 0
  {
    var x := a;
    while x.Node?
      invariant ChainSize(x) <= ChainSize(a)
      invariant Covered(x, b, sensitive) == Covered(a, b, sensitive)
      decreases x
    {
      var w := GetObjectItem(b, x.name, sensitive);
      if w == None {
        return false;
      }
      var equal := Compare(x.item, w.value, sensitive);
      if !equal {
        return false;
      }
      x := x.next;
    }
    return true;
  }

  method DuplicateTree(v: Json, recurse: bool) returns (copy: Json)
    ensures copy == Duplicate(v, recurse)
    decreases v
  {
    if v.String? {
      return String(CString(v.str));
    }
    if !v.Array? && !v.Object? {
      return v;
    }
    var children := End;
    if recurse {
      var child := v.child;
      while child.Node?
        invariant child == v.child || child < v.child
        invariant Concat(children, DuplicateChain(child)) == DuplicateChain(v.child)
        decreases child
      {
        var newChild := DuplicateTree(child.item, true);
        ConcatAppend(children, CopyName(child.name), newChild, DuplicateChain(child.next));
        children := Append(children, CopyName(child.name), newChild);
        child := child.next;
      }
      ConcatEnd(children);
    }
    return if v.Array? then Array(children) else Object(children);
  }

  // ---- what keys, numbers and copies are compared by ----

  /** Equal, or the two cases of one letter. */
  predicate SameLetter(a: byte, b: byte) {
    a == b || (65 <= a <= 90 && b as int == a as int + 32) || (65 <= b <= 90 && a as int == b as int + 32)
  }

  /** Two keys up to their first NULs, byte by byte or letter by letter. */
  predicate KeysMatch(n: Bytes, m: Bytes, sensitive: bool) {
    var x, y := CString(n), CString(m);
    |x| == |y| && forall i | 0 <= i < |x| :: if sensitive then x[i] == y[i] else SameLetter(x[i], y[i])
  }

  function LowerByte(b: byte): byte { if 65 <= b <= 90 then b + 32 else b }

  lemma {:induction false} LowerAt(s: Bytes)
    ensures |Lower(s)| == |s| && forall i | 0 <= i < |s| :: Lower(s)[i] == LowerByte(s[i])
  {
    if s != [] {
      LowerAt(s[1..]);
    }
  }

  lemma LowerLetter(a: byte, b: byte)
    ensures LowerByte(a) == LowerByte(b) <==> SameLetter(a, b)
  {
  }

  lemma FoldMatches(n: Bytes, m: Bytes, sensitive: bool)
    ensures Fold(n, sensitive) == Fold(m, sensitive) <==> KeysMatch(n, m, sensitive)
  {
    var x, y := CString(n), CString(m);
    if sensitive {
      assert KeysMatch(n, m, true) ==> x == y;
    } else {
      LowerAt(x);
      LowerAt(y);
      hide Lower, SameLetter, LowerByte, CString;
      forall i | 0 <= i < |x| && i < |y|
        ensures Lower(x)[i] == Lower(y)[i] <==> SameLetter(x[i], y[i])
      {
        LowerLetter(x[i], y[i]);
      }
      if Lower(x) == Lower(y) {
        assert forall i | 0 <= i < |x| :: Lower(x)[i] == Lower(y)[i];
      }
      if KeysMatch(n, m, false) {
        assert Lower(x) == Lower(y);
      }
    }
  }

  /** The members of a list, in order. */
  function Members(c: Chain): seq<(Option<Bytes>, Json)> {
    if c == End then [] else [(c.name, c.item)] + Members(c.next)
  }

  /** The k-th member is the first whose key matches; in the case-sensitive search none before it
      is nameless. */
  predicate FirstMatch(ms: seq<(Option<Bytes>, Json)>, n: Bytes, sensitive: bool, k: nat) {
    && k < |ms| && ms[k].0.Some? && KeysMatch(n, ms[k].0.value, sensitive)
    && forall j | 0 <= j < k ::
      if ms[j].0.Some? then !KeysMatch(n, ms[j].0.value, sensitive) else !sensitive
  }

  /** A search finds the first matching member, and nothing where there is none. */
  lemma {:induction false} LookupFirst(c: Chain, n: Bytes, sensitive: bool)
    ensures forall k: nat | FirstMatch(Members(c), n, sensitive, k) ::
      Lookup(c, Some(n), sensitive) == Some(Members(c)[k].1)
    ensures Lookup(c, Some(n), sensitive).Some? ==> exists k: nat :: FirstMatch(Members(c), n, sensitive, k)
  {
    hide Fold, KeysMatch;
    if c.Node? {
      var ms, ns := Members(c), Members(c.next);
      LookupFirst(c.next, n, sensitive);
      if c.name.Some? {
        FoldMatches(n, c.name.value, sensitive);
      }
      forall k: nat | FirstMatch(ms, n, sensitive, k)
        ensures Lookup(c, Some(n), sensitive) == Some(ms[k].1)
      {
        if k > 0 {
          MatchBehind(ms, n, sensitive, k);
          assert ms[1..] == ns;
        }
      }
      if Lookup(c, Some(n), sensitive).Some? {
        if c.name.Some? && KeysMatch(n, c.name.value, sensitive) {
          assert FirstMatch(ms, n, sensitive, 0);
        } else {
          var k: nat :| FirstMatch(ns, n, sensitive, k);
          MatchBefore(ms, ns, n, sensitive, k);
        }
      }
    }
  }

  lemma MatchBehind(ms: seq<(Option<Bytes>, Json)>, n: Bytes, sensitive: bool, k: nat)
    requires k > 0 && FirstMatch(ms, n, sensitive, k)
    ensures FirstMatch(ms[1..], n, sensitive, k - 1) && ms[1..][k - 1] == ms[k]
    ensures if ms[0].0.Some? then !KeysMatch(n, ms[0].0.value, sensitive) else !sensitive
  {
    hide KeysMatch;
    forall j | 0 <= j < k - 1
      ensures if ms[1..][j].0.Some? then !KeysMatch(n, ms[1..][j].0.value, sensitive) else !sensitive
    {
      assert ms[1..][j] == ms[j + 1];
    }
  }

  lemma MatchBefore(ms: seq<(Option<Bytes>, Json)>, ns: seq<(Option<Bytes>, Json)>, n: Bytes, sensitive: bool, k: nat)
    requires ms != [] && ms == [ms[0]] + ns && FirstMatch(ns, n, sensitive, k)
    requires if ms[0].0.Some? then !KeysMatch(n, ms[0].0.value, sensitive) else !sensitive
    ensures FirstMatch(ms, n, sensitive, k + 1)
  {
    hide KeysMatch;
    forall j | 0 <= j < k + 1
      ensures if ms[j].0.Some? then !KeysMatch(n, ms[j].0.value, sensitive) else !sensitive
    {
      if j > 0 {
        assert ms[j] == ns[j - 1];
      }
    }
  }

  /** Objects of one member are equal iff their keys match and their values are equal. */
  lemma OneMemberSame(n: Bytes, v: Json, m: Bytes, w: Json, sensitive: bool)
    ensures Same(Object(Node(Some(n), v, End)), Object(Node(Some(m), w, End)), sensitive)
      <==> KeysMatch(n, m, sensitive) && Same(v, w, sensitive)
  {
    hide Fold, KeysMatch;
    FoldMatches(n, m, sensitive);
    SameSymmetric(v, w, sensitive);
    var a, b := Node(Some(n), v, End), Node(Some(m), w, End);
    assert Covered(a, b, sensitive) <==> KeysMatch(n, m, sensitive) && Same(v, w, sensitive);
    assert Covered(b, a, sensitive) <==> KeysMatch(n, m, sensitive) && Same(w, v, sensitive);
  }

  /** No object has more than one member, so that order cannot matter. */
  predicate Slim(v: Json) {
    match v
    case Array(c) => SlimItems(c)
    case Object(c) => c == End || (Slim(c.item) && c.next == End)
    case _ => true
  }

  predicate SlimItems(c: Chain) { c == End || (Slim(c.item) && SlimItems(c.next)) }

  /** Apart from the order of members, comparison is plain equality. */
  lemma {:induction false} SlimSame(v: Json, w: Json)
    requires Printable(v) && Printable(w) && Ordinary(v) && Ordinary(w) && Slim(v) && Slim(w)
    ensures Same(v, w, true) <==> v == w
    decreases v, 1
  {
    hide SameNumber, CString;
    match v
    case Number(d) =>
      if w.Number? {
        SameInteger(d, w.num);
      }
    case Array(c) =>
      if w.Array? {
        SlimItemsSame(c, w.child);
      }
    case Object(c) =>
      if w.Object? {
        SlimMembersSame(c, w.child);
      }
    case _ =>
  }

  lemma {:induction false} SlimItemsSame(c: Chain, d: Chain)
    requires ChainPrintable(c) && ChainPrintable(d) && OrdinaryItems(c) && OrdinaryItems(d)
    requires SlimItems(c) && SlimItems(d)
    ensures SameItems(c, d, true) <==> c == d
    decreases c, 0
  {
    if c.Node? && d.Node? {
      SlimSame(c.item, d.item);
      SlimItemsSame(c.next, d.next);
    }
  }

  lemma {:induction false} SlimMembersSame(c: Chain, d: Chain)
    requires ChainPrintable(c) && ChainPrintable(d) && OrdinaryMembers(c) && OrdinaryMembers(d)
    requires (c.Node? ==> Slim(c.item) && c.next == End) && (d.Node? ==> Slim(d.item) && d.next == End)
    ensures Covered(c, d, true) && Covered(d, c, true) <==> c == d
    decreases c, 0
  {
    hide KeysMatch;
    if c.Node? && d.Node? {
      SlimSame(c.item, d.item);
      OneMemberSame(c.name.value, c.item, d.name.value, d.item, true);
      PlainKeys(c.name.value, d.name.value);
      assert c == Node(Some(c.name.value), c.item, End) && d == Node(Some(d.name.value), d.item, End);
    }
  }

  lemma PlainKeys(n: Bytes, m: Bytes)
    requires NUL !in n && NUL !in m
    ensures KeysMatch(n, m, true) <==> n == m
  {
  }

  lemma {:induction false} PowerPositive(e: int)
    ensures PowerOfTen(e) > 0.0
    decreases if e < 0 then -e else e
  {
    if e > 0 {
      PowerPositive(e - 1);
    } else if e < 0 {
      PowerPositive(e + 1);
    }
  }

  lemma ScaledAbs(x: int, y: int, p: real)
    requires p > 0.0
    ensures Abs(x as real * p) == Abs(x as real) * p
    ensures Abs(x as real * p - y as real * p) == Abs((x - y) as real) * p
  {
    assert x as real * p - y as real * p == (x - y) as real * p;
    Signs(x as real, p);
    Signs((x - y) as real, p);
  }

  lemma Signs(x: real, p: real)
    requires p > 0.0
    ensures (x < 0.0 ==> x * p < 0.0) && (x >= 0.0 ==> x * p >= 0.0)
  {
  }

  /** compare_double: the difference is at most the 2^52-th part of the larger one. */
  lemma ToleratedDifference(a: int, b: int, e: int)
    ensures var d, x, y := (if a < b then b - a else a - b), (if a < 0 then -a else a), if b < 0 then -b else b;
      SameNumber(Decimal(a, e), Decimal(b, e)) <==> d * 4503599627370496 <= if x < y then y else x
  {
    hide PowerOfTen, RealOf, Abs;
    var d, x, y := (if a < b then b - a else a - b), (if a < 0 then -a else a), if b < 0 then -b else b;
    PowerPositive(e);
    NumberSize(a, e, x);
    NumberSize(b, e, y);
    NumberDistance(a, b, e, d);
    Tolerated(RealOf(Decimal(a, e)), RealOf(Decimal(b, e)), x, y, d, PowerOfTen(e));
  }

  lemma NumberSize(a: int, e: int, x: nat)
    requires x == if a < 0 then -a else a
    ensures Abs(RealOf(Decimal(a, e))) == x as real * PowerOfTen(e)
  {
    hide PowerOfTen;
    PowerPositive(e);
    WholeAbs(a, x);
    ScaledAbs(a, 0, PowerOfTen(e));
  }

  lemma NumberDistance(a: int, b: int, e: int, d: nat)
    requires d == if a < b then b - a else a - b
    ensures Abs(RealOf(Decimal(a, e)) - RealOf(Decimal(b, e))) == d as real * PowerOfTen(e)
  {
    hide PowerOfTen;
    PowerPositive(e);
    WholeAbs(a - b, d);
    ScaledAbs(a, b, PowerOfTen(e));
  }

  lemma WholeAbs(a: int, x: nat)
    requires x == if a < 0 then -a else a
    ensures Abs(a as real) == x as real
  {
  }

  lemma Tolerated(u: real, v: real, x: nat, y: nat, d: nat, p: real)
    requires p > 0.0 && Abs(u) == x as real * p && Abs(v) == y as real * p && Abs(u - v) == d as real * p
    ensures var max := if Abs(u) > Abs(v) then Abs(u) else Abs(v);
      Abs(u - v) <= max / 4503599627370496.0 <==> d * 4503599627370496 <= if x < y then y else x
  {
    hide Abs;
    var n := if x < y then y else x;
    Ordered(x as real, y as real, p);
    Ordered(y as real, x as real, p);
    Compared(d as real, n as real, p);
    WholeProduct(d, n);
    if x < y {
      assert n == y && !(Abs(u) > Abs(v));
    } else {
      assert n == x && (x == y || Abs(u) > Abs(v));
    }
  }

  lemma WholeProduct(d: nat, n: nat)
    ensures d as real * 4503599627370496.0 <= n as real <==> d * 4503599627370496 <= n
  {
    assert d as real * 4503599627370496.0 == (d * 4503599627370496) as real;
  }

  lemma Ordered(x: real, y: real, p: real)
    requires p > 0.0
    ensures x > y <==> x * p > y * p
  {
    Signs(x - y, p);
    assert (x - y) * p == x * p - y * p;
    if x < y {
      Signs(y - x, p);
      assert (y - x) * p == y * p - x * p;
    }
  }

  lemma Compared(d: real, m: real, p: real)
    requires p > 0.0
    ensures d * p <= m * p / 4503599627370496.0 <==> d * 4503599627370496.0 <= m
  {
    Ordered(d * 4503599627370496.0, m, p);
    assert d * 4503599627370496.0 * p == d * p * 4503599627370496.0;
  }

  /** A digit more or a place less is the same number. */
  lemma ScaledNumber(m: int, e: int)
    ensures RealOf(Decimal(10 * m, e)) == RealOf(Decimal(m, e + 1))
  {
    assert PowerOfTen(e + 1) == 10.0 * PowerOfTen(e);
  }

  predicate NulFree(v: Json) {
    match v
    case String(s) => 0 !in s
    case Array(c) => NulFreeChain(c)
    case Object(c) => NulFreeChain(c)
    case _ => true
  }

  predicate NulFreeChain(c: Chain) {
    c == End || ((c.name.Some? ==> 0 !in c.name.value) && NulFree(c.item) && NulFreeChain(c.next))
  }

  /** A deep copy of a tree without NULs is that tree, and a flat copy of a container is empty. */
  lemma {:induction false} PlainDuplicate(v: Json)
    requires NulFree(v)
    ensures Duplicate(v, true) == v
    ensures Duplicate(v, false) == if v.Array? then Array(End) else if v.Object? then Object(End) else v
  {
    match v
    case Array(c) => PlainDuplicateChain(c);
    case Object(c) => PlainDuplicateChain(c);
    case _ =>
  }

  lemma {:induction false} PlainDuplicateChain(c: Chain)
    requires NulFreeChain(c)
    ensures DuplicateChain(c) == c
  {
    if c.Node? {
      PlainDuplicate(c.item);
      PlainDuplicateChain(c.next);
    }
  }
}
