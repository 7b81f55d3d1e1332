/**
 zlog's array of pointers: growth by doubling, and the sorted insert that is proved to be a
 stable insertion.
 */
module ZlogArrayList {
  import opened Text

  const DEFAULT_SIZE: nat := 32

  function Max(a: int, b: int): int { if a > b then a else b }

  function NewSize(size: int, max: int): int { Max(size * 2, max) }

  /** zc_arraylist_set asks for room up to idx but not for idx itself: it only gets it below twice
      the old size. */
  lemma SetHasRoom(size: nat, idx: nat)
    requires idx > size - 1
    ensures idx < NewSize(size, idx) <==> idx < 2 * size
  {
  }

  // ---- the sorted insert on sequences ----

  /** Before the first element that is greater. */
  function SortedInsert<T>(s: seq<T>, x: T, key: T -> int): (r: seq<T>)
    ensures |r| == |s| + 1
  {
    if s == [] then [x] else if key(s[0]) > key(x) then [x] + s else [s[0]] + SortedInsert(s[1..], x, key)
  }

  function SortedAll<T>(xs: seq<T>, key: T -> int): (r: seq<T>)
    ensures |r| == |xs|
  {
    if xs == [] then [] else SortedInsert(SortedAll(xs[..|xs| - 1], key), xs[|xs| - 1], key)
  }

  predicate Sorted<T>(s: seq<T>, key: T -> int) {
    forall i, j | 0 <= i < j < |s| :: key(s[i]) <= key(s[j])
  }

  /** The elements with key k, in their order. */
  function With<T>(s: seq<T>, key: T -> int, k: int): seq<T> {
    if s == [] then [] else (if key(s[0]) == k then [s[0]] else []) + With(s[1..], key, k)
  }

  lemma {:induction false} WithAppend<T>(s: seq<T>, x: T, key: T -> int, k: int)
    ensures With(s + [x], key, k) == With(s, key, k) + (if key(x) == k then [x] else [])
  {
    if s == [] {
      assert s + [x] == [x] && [x][1..] == [];
    } else {
      WithAppend(s[1..], x, key, k);
      assert (s + [x])[1..] == s[1..] + [x];
    }
  }

  lemma {:induction false} WithGreater<T>(s: seq<T>, key: T -> int, k: int)
    requires forall y | y in s :: key(y) > k
    ensures With(s, key, k) == []
  {
    if s != [] {
      WithGreater(s[1..], key, k);
    }
  }

  lemma {:induction false} InsertMembers<T>(s: seq<T>, x: T, key: T -> int)
    ensures multiset(SortedInsert(s, x, key)) == multiset(s) + multiset{x}
    ensures forall y | y in SortedInsert(s, x, key) :: y in s || y == x
  {
    if s != [] {
      assert s == [s[0]] + s[1..];
      InsertMembers(s[1..], x, key);
    }
  }

  lemma ConsSorted<T>(a: T, t: seq<T>, key: T -> int)
    requires Sorted(t, key) && forall y | y in t :: key(a) <= key(y)
    ensures Sorted([a] + t, key)
  {
  }

  lemma {:induction false} InsertSorts<T>(s: seq<T>, x: T, key: T -> int)
    requires Sorted(s, key)
    ensures Sorted(SortedInsert(s, x, key), key)
  {
    if s == [] {
    } else {
      assert Sorted(s[1..], key) && forall y | y in s[1..] :: key(s[0]) <= key(y);
      hide Sorted;
      if key(s[0]) > key(x) {
        assert forall y | y in s :: key(x) <= key(y);
        ConsSorted(x, s, key);
      } else {
        InsertSorts(s[1..], x, key);
        InsertMembers(s[1..], x, key);
        ConsSorted(s[0], SortedInsert(s[1..], x, key), key);
      }
    }
  }

  lemma WithCons<T>(a: T, t: seq<T>, key: T -> int, k: int)
    ensures With([a] + t, key, k) == (if key(a) == k then [a] else []) + With(t, key, k)
  {
    assert ([a] + t)[1..] == t;
  }

  lemma StableHere<T>(s: seq<T>, x: T, key: T -> int, k: int)
    requires s != [] && Sorted(s, key) && key(s[0]) > key(x)
    ensures With([x] + s, key, k) == With(s, key, k) + (if key(x) == k then [x] else [])
  {
    WithCons(x, s, key, k);
    if key(x) == k {
      WithGreater(s, key, k);
    }
  }

  lemma TailSorted<T>(s: seq<T>, key: T -> int)
    requires s != [] && Sorted(s, key)
    ensures Sorted(s[1..], key) && s == [s[0]] + s[1..]
  {
  }

  lemma StableNothing<T>(x: T, key: T -> int, k: int)
    ensures With(SortedInsert([], x, key), key, k) == With([], key, k) + (if key(x) == k then [x] else [])
  {
    WithCons(x, [], key, k);
  }

  lemma InsertUnfold<T>(s: seq<T>, x: T, key: T -> int)
    requires s != []
    ensures SortedInsert(s, x, key) == if key(s[0]) > key(x) then [x] + s else [s[0]] + SortedInsert(s[1..], x, key)
  {
  }

  lemma {:induction false} InsertStable<T>(s: seq<T>, x: T, key: T -> int, k: int)
    requires Sorted(s, key)
    ensures With(SortedInsert(s, x, key), key, k) == With(s, key, k) + (if key(x) == k then [x] else [])
    decreases |s|
  {
    hide *;
    if s == [] {
      StableNothing(x, key, k);
    } else {
      InsertUnfold(s, x, key);
      if key(s[0]) > key(x) {
        StableHere(s, x, key, k);
      } else {
        TailSorted(s, key);
        InsertStable(s[1..], x, key, k);
        WithCons(s[0], s[1..], key, k);
        WithCons(s[0], SortedInsert(s[1..], x, key), key, k);
      }
    }
  }

  /** Adding elements one by one with sortadd sorts them stably. */
  lemma {:induction false} SortedAllStable<T>(xs: seq<T>, key: T -> int)
    ensures Sorted(SortedAll(xs, key), key)
    ensures multiset(SortedAll(xs, key)) == multiset(xs)
    ensures forall k :: With(SortedAll(xs, key), key, k) == With(xs, key, k)
  {
    hide SortedInsert;
    if xs != [] {
      var ys, x := xs[..|xs| - 1], xs[|xs| - 1];
      assert xs == ys + [x];
      assert multiset(xs) == multiset(ys) + multiset{x};
      SortedAllStable(ys, key);
      var t := SortedAll(ys, key);
      assert SortedAll(xs, key) == SortedInsert(t, x, key);
      hide With, Sorted, SortedAll;
      InsertSorts(t, x, key);
      InsertMembers(t, x, key);
      forall k
        ensures With(SortedAll(xs, key), key, k) == With(xs, key, k)
      {
        InsertStable(t, x, key, k);
        WithAppend(ys, x, key, k);
      }
    }
  }

  // ---- the array ----

  class ArrayList<T> {
    var items: array<Option<T>>
    var len: nat
    var size: nat

    ghost predicate Valid()
      reads this, items
    {
      && len <= size == items.Length && size > 0
      && forall k | len <= k < size :: items[k] == None
    }

    ghost function Contents(): seq<Option<T>>
      reads this, items
      requires Valid()
    {
      items[..len]
    }

    constructor ()
      ensures Valid() && Contents() == [] && fresh(items) && size == 32
    {
      size := DEFAULT_SIZE;
      len := 0;
      items := new Option<T>[DEFAULT_SIZE](i => None);
    }

    method Get(i: nat) returns (r: Option<T>)
      requires Valid()
      ensures r == if i < len then Contents()[i] else None
    {
      return if i >= len then None else items[i];
    }

    method ExpandInner(max: int)
      requires Valid()
      modifies this`items, this`size
      ensures Valid() && fresh(items) && size == if max > 2 * old(size) then max else 2 * old(size)
      ensures items[..len] == old(items[..len])
    {
      var newSize: nat := NewSize(size, max);
      var tmp := new Option<T>[newSize](i => None);
      forall i | 0 <= i < size {
        tmp[i] := items[i];
      }
      assert tmp[..len] == items[..len];
      items := tmp;
      size := newSize;
    }

    /** Storing at idx; places skipped over stay null. */
    method Set(idx: nat, data: T)
      requires Valid() && idx < 2 * size
      modifies this, items
      ensures Valid() && (items == old(items) || fresh(items))
      ensures len == Max(old(len), idx + 1) && items[idx] == Some(data)
      ensures forall k | 0 <= k < len && k != idx :: items[k] == if k < old(len) then old(items[k]) else None
    {
      ghost var was := items[..len];
      if idx > size - 1 {
        ExpandInner(idx);
      }
      assert items[..len] == was && forall k | 0 <= k < len :: items[k] == was[k];
      items[idx] := Some(data);
      if len <= idx {
        len := idx + 1;
      }
    }

    method Add(data: T)
      requires Valid()
      modifies this, items
      ensures Valid() && (items == old(items) || fresh(items))
      ensures Contents() == old(Contents()) + [Some(data)]
    {
      Set(len, data);
    }

    /** A null place is filled; otherwise everything from idx on moves up. */
    method InsertInner(idx: nat, data: T)
      requires Valid() && idx < len
      modifies this, items
      ensures Valid() && (items == old(items) || fresh(items))
      ensures var s := old(Contents());
        Contents() == if s[idx] == None then s[idx := Some(data)] else s[..idx] + [Some(data)] + s[idx..]
    {
      ghost var s := items[..len];
      if items[idx] == None {
        items[idx] := Some(data);
        return;
      }
      if len > size - 1 {
        ExpandInner(0);
      }
      assert items[..len] == s;
      MoveUp(idx, data);
    }

    /** The memmove, with room for one more. */
    method MoveUp(idx: nat, data: T)
      requires Valid() && idx <= len < size
      modifies this`len, items
      ensures Valid() && Contents() == old(items[..len])[..idx] + [Some(data)] + old(items[..len])[idx..]
    {
      ghost var s := items[..len];
      forall k | idx < k <= len {
        items[k] := items[k - 1];
      }
      items[idx] := Some(data);
      len := len + 1;
      Spread(s, items[..len], idx, Some(data));
    }

    /** zc_arraylist_sortadd with a comparison by key, on a list without null places. */
    method SortAdd(data: T, key: T -> int, ghost s: seq<T>)
      requires Valid() && Contents() == Somes(s)
      modifies this, items
      ensures Valid() && (items == old(items) || fresh(items))
      ensures Contents() == Somes(SortedInsert(s, data, key))
    {
      var i := 0;
      while i < len && key(items[i].value) <= key(data)
        invariant i <= len && forall j | 0 <= j < i :: key(s[j]) <= key(data)
      {
        i := i + 1;
      }
      InsertAt(s, i, data, key);
      SomesInsert(s, i, data);
      if i == len {
        Add(data);
      } else {
        InsertInner(i, data);
      }
    }
  }

  lemma Spread<T>(s: seq<T>, t: seq<T>, idx: nat, x: T)
    requires idx <= |s| && |t| == |s| + 1 && t[idx] == x
    requires forall k | 0 <= k < idx :: t[k] == s[k]
    requires forall k | idx < k < |t| :: t[k] == s[k - 1]
    ensures t == s[..idx] + [x] + s[idx..]
  {
  }

  function Somes<T>(s: seq<T>): (r: seq<Option<T>>)
    ensures |r| == |s| && forall i | 0 <= i < |s| :: r[i] == Some(s[i])
  {
    seq(|s|, i requires 0 <= i < |s| => Some(s[i]))
  }

  lemma {:induction false} InsertAt<T>(s: seq<T>, i: nat, x: T, key: T -> int)
    requires i <= |s| && (forall j | 0 <= j < i :: key(s[j]) <= key(x)) && (i < |s| ==> key(s[i]) > key(x))
    ensures SortedInsert(s, x, key) == s[..i] + [x] + s[i..]
  {
    if i > 0 {
      InsertAt(s[1..], i - 1, x, key);
      assert s[..i] == [s[0]] + s[1..][..i - 1];
      assert s[1..][i - 1..] == s[i..];
    }
  }

  lemma SomesInsert<T>(s: seq<T>, i: nat, x: T)
    requires i <= |s|
    ensures Somes(s[..i] + [x] + s[i..]) == Somes(s)[..i] + [Some(x)] + Somes(s)[i..]
  {
  }
}
