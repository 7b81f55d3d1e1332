/**
 The child list of an array or object: `next` ends in null, `prev` is circular, and the
 parent's `child` is the head. Every edit is proved to be the same edit on a plain sequence.
 */
module CJsonList {

  class Item {
    var next: Item?
    var prev: Item?
    var child: Item?

    constructor ()
      ensures next == null && prev == null && child == null
    {
      next, prev, child := null, null, null;
    }
  }

  function NextOf(s: seq<Item>, i: nat): Item?
    requires i < |s|
  {
    if i + 1 < |s| then s[i + 1] else null
  }

  function PrevOf(s: seq<Item>, i: nat): Item
    requires i < |s|
  {
    if i > 0 then s[i - 1] else s[|s| - 1]
  }

  lemma Neighbours(s: seq<Item>, i: nat)
    requires i < |s|
    ensures NextOf(s, i) == if i + 1 < |s| then s[i + 1] else null
    ensures PrevOf(s, i) == if i > 0 then s[i - 1] else s[|s| - 1]
  {
  }

  /** The children of `parent` are exactly s, in this order. */
  ghost predicate Linked(parent: Item, s: seq<Item>)
    reads parent, s
  {
    && parent !in s
    && Distinct(s)
    && parent.child == (if s == [] then null else s[0])
    && Links(s)
  }

  /** An item that may be linked in: it is in no list. */
  ghost predicate Loose(parent: Item, s: seq<Item>, item: Item)
    reads item
  {
    item != parent && item !in s && item.next == null
  }

  /** The objects an edit may write: the parent, one new item and the items of the list. */
  function Touched(parent: Item?, item: Item?, s: seq<Item>): set<Item?> {
    {parent, item} + set x | x in s
  }

  /** No item's own children change. */
  twostate predicate SameChildren(s: seq<Item>)
    reads s
  {
    forall x | x in s :: x.child == old(x.child)
  }

  function Insert<T>(s: seq<T>, k: nat, x: T): (r: seq<T>)
  {
    if k < |s| then s[..k] + [x] + s[k..] else s + [x]
  }

  function Remove<T>(s: seq<T>, k: nat): seq<T>
    requires k < |s|
  {
    s[..k] + s[k + 1..]
  }

  method GetArraySize(parent: Item?, ghost s: seq<Item>) returns (size: nat)
    requires parent != null ==> Linked(parent, s)
    ensures size == if parent == null then 0 else |s|
  {
    if parent == null {
      return 0;
    }
    var child := parent.child;
    size := 0;
    while child != null
      invariant size <= |s| && child == if size < |s| then s[size] else null
      decreases |s| - size
    {
      size := size + 1;
      child := child.next;
    }
  }

  method GetArrayItem(parent: Item?, index: int, ghost s: seq<Item>) returns (r: Item?)
    requires parent != null ==> Linked(parent, s)
    ensures r == if parent != null && 0 <= index < |s| then s[index] else null
  {
    if index < 0 || parent == null {
      return null;
    }
    var left := index;
    r := parent.child;
    while r != null && left > 0
      invariant 0 <= left <= index
      invariant r == if index - left < |s| then s[index - left] else null
      decreases left
    {
      left := left - 1;
      r := r.next;
    }
  }

  /** add_item_to_array: the tail is found through the head's prev. */
  method AddItemToArray(parent: Item?, item: Item?, ghost s: seq<Item>) returns (ok: bool)
    requires parent != null ==> Linked(parent, s)
    requires parent != null && item != null && item != parent ==> Loose(parent, s, item)
    modifies Touched(parent, item, s)
    ensures SameChildren(s)
    ensures ok <==> parent != null && item != null && item != parent
    ensures ok ==> Linked(parent, s + [item])
    ensures !ok && item != null ==> item.next == old(item.next)
    ensures !ok && parent != null ==> Linked(parent, s)
  {
    if item == null || parent == null || parent == item {
      return false;
    }
    var child := parent.child;
    if child == null {
      parent.child := item;
      item.prev := item;
      item.next := null;
    } else if child.prev != null {
      assert child.prev == s[|s| - 1] && child == s[0];
      var last := child.prev;
      last.next := item;
      item.prev := last;
      parent.child.prev := item;
    }
    AppendLinks(parent, s, item);
    return true;
  }

  lemma AppendLinks(parent: Item, s: seq<Item>, x: Item)
    requires Distinct(s) && parent !in s && x != parent && x !in s
    requires parent.child == if s == [] then x else s[0]
    requires x.next == null && x.prev == if s == [] then x else s[|s| - 1]
    requires forall i | 0 <= i < |s| :: s[i].next == if i + 1 == |s| then x else NextOf(s, i)
    requires forall i | 0 <= i < |s| :: s[i].prev == if i == 0 then x else PrevOf(s, i)
    ensures Linked(parent, s + [x])
  {
    hide NextOf, PrevOf;
    var t := s + [x];
    assert t[0] == if s == [] then x else s[0];
    forall i | 0 <= i < |t|
      ensures t[i].next == NextOf(t, i) && t[i].prev == PrevOf(t, i)
    {
      AppendedAt(s, x, i);
    }
  }

  lemma AppendedAt(s: seq<Item>, x: Item, i: nat)
    requires i <= |s|
    ensures (s + [x])[i] == if i < |s| then s[i] else x
    ensures NextOf(s + [x], i) == if i == |s| then null else if i + 1 == |s| then x else NextOf(s, i)
    ensures PrevOf(s + [x], i) == if i == 0 then x else if i == |s| then s[|s| - 1] else PrevOf(s, i)
  {
  }

  predicate Distinct(s: seq<Item>) { forall i, j | 0 <= i < j < |s| :: s[i] != s[j] }

  ghost predicate Links(s: seq<Item>)
    reads s
  {
    forall i | 0 <= i < |s| :: s[i].next == NextOf(s, i) && s[i].prev == PrevOf(s, i)
  }

  lemma RemoveDistinct(s: seq<Item>, k: nat)
    requires k < |s| && Distinct(s)
    ensures Distinct(Remove(s, k)) && s[k] !in Remove(s, k)
    ensures forall x | x in Remove(s, k) :: x in s
  {
    var t := Remove(s, k);
    forall i | 0 <= i < |t|
      ensures t[i] == s[if i < k then i else i + 1]
    {
    }
  }

  lemma InsertDistinct(s: seq<Item>, k: nat, x: Item)
    requires k < |s| && Distinct(s) && x !in s
    ensures Distinct(Insert(s, k, x))
    ensures forall y | y in Insert(s, k, x) :: y in s || y == x
  {
    var t := Insert(s, k, x);
    forall i | 0 <= i < |t|
      ensures t[i] == if i == k then x else s[if i < k then i else i - 1]
    {
    }
  }

  lemma ReplaceDistinct(s: seq<Item>, k: nat, x: Item)
    requires k < |s| && Distinct(s) && x !in s
    ensures Distinct(s[k := x])
    ensures forall y | y in s[k := x] :: y in s || y == x
  {
  }

  lemma RemoveLinks(parent: Item, s: seq<Item>, k: nat)
    requires k < |s| && Distinct(s) && parent !in s
    requires parent.child == if k == 0 then NextOf(s, 0) else s[0]
    requires forall i | 0 <= i < |s| && i != k ::
      s[i].next == if i + 1 == k then NextOf(s, k) else NextOf(s, i)
    requires forall i | 0 <= i < |s| && i != k ::
      s[i].prev == if i == k + 1 || (i == 0 && k == |s| - 1) then PrevOf(s, k) else PrevOf(s, i)
    ensures Linked(parent, Remove(s, k))
  {
    hide NextOf, PrevOf, Remove;
    RemoveDistinct(s, k);
    RemovedHead(s, k);
    var t := Remove(s, k);
    forall i | 0 <= i < |t|
      ensures t[i].next == NextOf(t, i) && t[i].prev == PrevOf(t, i)
    {
      RemovedAt(s, k, i);
    }
  }

  lemma RemovedHead(s: seq<Item>, k: nat)
    requires k < |s|
    ensures |Remove(s, k)| == |s| - 1
    ensures (if Remove(s, k) == [] then null else Remove(s, k)[0]) == if k == 0 then NextOf(s, 0) else s[0]
  {
  }

  /** Where the item at i of the shorter list came from, and what its neighbours there are. */
  lemma RemovedAt(s: seq<Item>, k: nat, i: nat)
    requires k < |s| && i < |s| - 1
    ensures |Remove(s, k)| == |s| - 1 && Remove(s, k)[i] == s[if i < k then i else i + 1]
    ensures NextOf(Remove(s, k), i) == if i + 1 == k then NextOf(s, k) else NextOf(s, if i < k then i else i + 1)
    ensures PrevOf(Remove(s, k), i) ==
            if i == k || (i == 0 && k == |s| - 1) then PrevOf(s, k) else PrevOf(s, if i < k then i else i + 1)
  {
  }

  lemma InsertLinks(parent: Item, s: seq<Item>, k: nat, x: Item)
    requires k < |s| && Distinct(s) && parent !in s
    requires x != parent && x !in s && parent.child == if k == 0 then x else s[0]
    requires x.next == s[k] && x.prev == PrevOf(s, k)
    requires forall i | 0 <= i < |s| :: s[i].next == if i + 1 == k then x else NextOf(s, i)
    requires forall i | 0 <= i < |s| :: s[i].prev == if i == k then x else PrevOf(s, i)
    ensures Linked(parent, Insert(s, k, x))
  {
    hide NextOf, PrevOf;
    InsertDistinct(s, k, x);
    var t := Insert(s, k, x);
    assert t[0] == if k == 0 then x else s[0];
    forall i | 0 <= i < |t|
      ensures t[i].next == NextOf(t, i) && t[i].prev == PrevOf(t, i)
    {
      InsertedAt(s, k, x, i);
      hide Insert;
    }
  }

  /** Where the item at i of the longer list came from, and what its neighbours there are. */
  lemma InsertedAt(s: seq<Item>, k: nat, x: Item, i: nat)
    requires k < |s| && i <= |s|
    ensures Insert(s, k, x)[i] == if i == k then x else s[if i < k then i else i - 1]
    ensures NextOf(Insert(s, k, x), i) ==
            if i == k then s[k] else if i + 1 == k then x else NextOf(s, if i < k then i else i - 1)
    ensures PrevOf(Insert(s, k, x), i) ==
            if i == k + 1 then x else PrevOf(s, if i <= k then i else i - 1)
  {
    hide Insert, NextOf, PrevOf;
    var t := Insert(s, k, x);
    InsertedItem(s, k, x, i);
    InsertedItem(s, k, x, |s|);
    Neighbours(t, i);
    if i > 0 {
      InsertedItem(s, k, x, i - 1);
      Neighbours(s, i - 1);
    }
    if i < |s| {
      InsertedItem(s, k, x, i + 1);
      Neighbours(s, i);
    }
  }

  lemma InsertedItem(s: seq<Item>, k: nat, x: Item, i: nat)
    requires k < |s| && i <= |s|
    ensures |Insert(s, k, x)| == |s| + 1
    ensures Insert(s, k, x)[i] == if i == k then x else s[if i < k then i else i - 1]
  {
  }

  lemma ReplaceLinks(parent: Item, s: seq<Item>, k: nat, x: Item)
    requires k < |s| && Distinct(s) && parent !in s
    requires x != parent && x !in s && parent.child == if k == 0 then x else s[0]
    requires x.next == NextOf(s, k) && x.prev == if |s| == 1 then x else PrevOf(s, k)
    requires forall i | 0 <= i < |s| && i != k :: s[i].next == if i + 1 == k then x else NextOf(s, i)
    requires forall i | 0 <= i < |s| && i != k ::
      s[i].prev == if i == k + 1 || (i == 0 && k == |s| - 1) then x else PrevOf(s, i)
    ensures Linked(parent, s[k := x])
  {
    ReplaceDistinct(s, k, x);
    var t := s[k := x];
    forall i | 0 <= i < |t|
      ensures t[i].next == NextOf(t, i) && t[i].prev == PrevOf(t, i)
    {
    }
  }

  method DetachItemViaPointer(parent: Item?, item: Item?, ghost s: seq<Item>, ghost k: nat) returns (r: Item?)
    requires parent != null ==> Linked(parent, s)
    requires parent != null && item != null ==> k < |s| && s[k] == item
    modifies Touched(parent, null, s)
    ensures SameChildren(s)
    ensures r == if parent == null then null else item
    ensures r != null ==> Linked(parent, Remove(s, k)) && r.next == null && r.prev == null
    ensures r == null && parent != null ==> Linked(parent, s)
  {
    if parent == null || item == null {
      return null;
    }
    hide NextOf, PrevOf;
    Unlink(parent, item, s, k);
    RemoveLinks(parent, s, k);
    return item;
  }

  /** The pointer surgery of cJSON_DetachItemViaPointer. */
  method Unlink(parent: Item, item: Item, ghost s: seq<Item>, ghost k: nat)
    requires Linked(parent, s) && k < |s| && s[k] == item
    modifies Touched(parent, null, s)
    ensures SameChildren(s)
    ensures parent.child == if k == 0 then NextOf(s, 0) else s[0]
    ensures item.next == null && item.prev == null
    ensures forall i | 0 <= i < |s| && i != k ::
      s[i].next == if i + 1 == k then NextOf(s, k) else NextOf(s, i)
    ensures forall i | 0 <= i < |s| && i != k ::
      s[i].prev == if i == k + 1 || (i == 0 && k == |s| - 1) then PrevOf(s, k) else PrevOf(s, i)
  {
    hide NextOf, PrevOf;
    Neighbours(s, k);
    assert item.prev == PrevOf(s, k) && item.next == NextOf(s, k) && parent.child == s[0];
    if item != parent.child {
      item.prev.next := item.next;
    }
    if item.next != null {
      item.next.prev := item.prev;
    }
    if item == parent.child {
      parent.child := item.next;
    } else if item.next == null {
      parent.child.prev := item.prev;
    }
    item.prev := null;
    item.next := null;
  }

  method DetachItemFromArray(parent: Item?, which: int, ghost s: seq<Item>) returns (r: Item?)
    requires parent != null ==> Linked(parent, s)
    modifies Touched(parent, null, s)
    ensures SameChildren(s)
    ensures r == if parent != null && 0 <= which < |s| then s[which] else null
    ensures r != null ==> Linked(parent, Remove(s, which)) && Loose(parent, Remove(s, which), r)
    ensures r == null && parent != null ==> Linked(parent, s)
  {
    if which < 0 {
      return null;
    }
    var item := GetArrayItem(parent, which, s);
    r := DetachItemViaPointer(parent, item, s, which);
  }

  /** cJSON_InsertItemInArray; at a place inside the list the code uses the new item unchecked. */
  method InsertItemInArray(parent: Item?, which: int, newItem: Item?, ghost s: seq<Item>) returns (ok: bool)
    requires parent != null ==> Linked(parent, s)
    requires parent != null && 0 <= which < |s| ==> newItem != null && Loose(parent, s, newItem)
    requires parent != null && which >= |s| && newItem != null && newItem != parent ==> Loose(parent, s, newItem)
    modifies Touched(parent, newItem, s)
    ensures SameChildren(s)
    ensures ok <==> parent != null && which >= 0 && newItem != null && newItem != parent
    ensures ok ==> Linked(parent, Insert<Item>(s, which, newItem))
    ensures !ok && newItem != null ==> newItem.next == old(newItem.next)
    ensures !ok && parent != null ==> Linked(parent, s)
  {
    if which < 0 {
      return false;
    }
    var after := GetArrayItem(parent, which, s);
    if after == null {
      ok := AddItemToArray(parent, newItem, s);
      return;
    }
    hide NextOf, PrevOf;
    LinkBefore(parent, after, newItem, s, which);
    InsertLinks(parent, s, which, newItem);
    return true;
  }

  /** The pointer surgery of cJSON_InsertItemInArray. */
  method LinkBefore(parent: Item, after: Item, newItem: Item, ghost s: seq<Item>, ghost k: nat)
    requires Linked(parent, s) && k < |s| && s[k] == after && newItem != parent && newItem !in s
    modifies Touched(parent, newItem, s)
    ensures SameChildren(s)
    ensures parent.child == if k == 0 then newItem else s[0]
    ensures newItem.next == s[k] && newItem.prev == PrevOf(s, k)
    ensures forall i | 0 <= i < |s| :: s[i].next == if i + 1 == k then newItem else NextOf(s, i)
    ensures forall i | 0 <= i < |s| :: s[i].prev == if i == k then newItem else PrevOf(s, i)
  {
    hide NextOf, PrevOf;
    Neighbours(s, k);
    assert after.prev == PrevOf(s, k) && parent.child == s[0];
    newItem.next := after;
    newItem.prev := after.prev;
    after.prev := newItem;
    if after == parent.child {
      parent.child := newItem;
    } else {
      newItem.prev.next := newItem;
    }
  }

  method ReplaceItemViaPointer(parent: Item?, item: Item?, replacement: Item?, ghost s: seq<Item>, ghost k: nat)
    returns (ok: bool)
    requires parent != null ==> Linked(parent, s)
    requires parent != null && item != null ==> k < |s| && s[k] == item
    requires parent != null && item != null && replacement != null && replacement != item
      ==> replacement != parent && replacement !in s
    modifies Touched(parent, replacement, s)
    ensures SameChildren(s)
    ensures ok <==> parent != null && item != null && replacement != null
    ensures ok ==> Linked(parent, s[k := replacement])
    ensures ok && replacement != item ==> item.next == null && item.prev == null
    ensures !ok && replacement != null ==> replacement.next == old(replacement.next)
    ensures !ok && parent != null ==> Linked(parent, s)
  {
    if parent == null || replacement == null || item == null {
      return false;
    }
    if replacement == item {
      assert s[k := replacement] == s;
      return true;
    }
    hide NextOf, PrevOf;
    LinkInstead(parent, item, replacement, s, k);
    ReplaceLinks(parent, s, k, replacement);
    return true;
  }

  /** The pointer surgery of cJSON_ReplaceItemViaPointer. */
  method LinkInstead(parent: Item, item: Item, replacement: Item, ghost s: seq<Item>, ghost k: nat)
    requires Linked(parent, s) && k < |s| && s[k] == item && replacement != parent && replacement !in s
    modifies Touched(parent, replacement, s)
    ensures SameChildren(s)
    ensures item.next == null && item.prev == null
    ensures parent.child == if k == 0 then replacement else s[0]
    ensures replacement.next == NextOf(s, k) && replacement.prev == if |s| == 1 then replacement else PrevOf(s, k)
    ensures forall i | 0 <= i < |s| && i != k :: s[i].next == if i + 1 == k then replacement else NextOf(s, i)
    ensures forall i | 0 <= i < |s| && i != k ::
      s[i].prev == if i == k + 1 || (i == 0 && k == |s| - 1) then replacement else PrevOf(s, i)
  {
    hide NextOf, PrevOf;
    Neighbours(s, k);
    assert item.prev == PrevOf(s, k) && item.next == NextOf(s, k) && parent.child == s[0];
    replacement.next := item.next;
    replacement.prev := item.prev;
    if replacement.next != null {
      replacement.next.prev := replacement;
    }
    if parent.child == item {
      if parent.child.prev == parent.child {
        replacement.prev := replacement;
      }
      parent.child := replacement;
    } else {
      if replacement.prev != null {
        replacement.prev.next := replacement;
      }
      if replacement.next == null {
        parent.child.prev := replacement;
      }
    }
    item.next := null;
    item.prev := null;
  }

  method ReplaceItemInArray(parent: Item?, which: int, newItem: Item?, ghost s: seq<Item>) returns (ok: bool)
    requires parent != null ==> Linked(parent, s)
    requires parent != null && newItem != null && 0 <= which < |s| && newItem != s[which]
      ==> newItem != parent && newItem !in s
    modifies Touched(parent, newItem, s)
    ensures SameChildren(s)
    ensures ok <==> parent != null && newItem != null && 0 <= which < |s|
    ensures ok ==> Linked(parent, s[which := newItem])
    ensures ok && newItem != s[which] ==> s[which].next == null
    ensures !ok && newItem != null ==> newItem.next == old(newItem.next)
    ensures !ok && parent != null ==> Linked(parent, s)
  {
    if which < 0 {
      return false;
    }
    var item := GetArrayItem(parent, which, s);
    ok := ReplaceItemViaPointer(parent, item, newItem, s, which);
  }

  datatype Edit =
    | Append(item: Item)
    | InsertAt(which: int, item: Item)
    | Detach(which: int)
    | ReplaceAt(which: int, item: Item)

  function ItemOf(e: Edit): Item? {
    if e.Detach? then null else e.item
  }

  /** The same edit on a plain sequence; an edit that is refused leaves it alone. */
  function Edited(s: seq<Item>, e: Edit): seq<Item> {
    match e
    case Append(item) => s + [item]
    case InsertAt(which, item) => if which < 0 then s else Insert(s, which, item)
    case Detach(which) => if 0 <= which < |s| then Remove(s, which) else s
    case ReplaceAt(which, item) => if 0 <= which < |s| then s[which := item] else s
  }

  /** Item by item: what stays in front of the place, what moves and by how much. */
  lemma EditedPlaces(s: seq<Item>, e: Edit, i: nat)
    requires i < |s|
    ensures e.Append? ==> |Edited(s, e)| == |s| + 1 && Edited(s, e)[|s|] == e.item && Edited(s, e)[i] == s[i]
    ensures e.InsertAt? && e.which >= 0
        ==> |Edited(s, e)| == |s| + 1 && Edited(s, e)[if e.which < |s| then e.which else |s|] == e.item
    ensures e.InsertAt? && e.which >= 0 ==> Edited(s, e)[if i < e.which then i else i + 1] == s[i]
    ensures e.Detach? && 0 <= e.which < |s|
        ==> |Edited(s, e)| == |s| - 1 && (i != e.which ==> Edited(s, e)[if i < e.which then i else i - 1] == s[i])
    ensures e.ReplaceAt? && 0 <= e.which < |s|
        ==> |Edited(s, e)| == |s| && Edited(s, e)[i] == if i == e.which then e.item else s[i]
    ensures !e.Append? && (e.which < 0 || (!e.InsertAt? && e.which >= |s|)) ==> Edited(s, e) == s
  {
  }

  /** Detaching undoes inserting, inserting again undoes detaching, and replacing undoes itself. */
  lemma EditUndone(s: seq<Item>, which: int, item: Item)
    ensures 0 <= which <= |s| ==> Edited(Edited(s, InsertAt(which, item)), Detach(which)) == s
    ensures 0 <= which < |s| ==> Edited(Edited(s, Detach(which)), InsertAt(which, s[which])) == s
    ensures 0 <= which < |s| ==> Edited(Edited(s, ReplaceAt(which, item)), ReplaceAt(which, s[which])) == s
  {
    if 0 <= which < |s| {
      assert s == s[..which] + [s[which]] + s[which + 1..];
    }
  }

  function EditedBy(s: seq<Item>, edits: seq<Edit>): seq<Item>
    decreases |edits|
  {
    if edits == [] then s else EditedBy(Edited(s, edits[0]), edits[1..])
  }

  /** Every item an edit brings is neither the parent nor already in the list at that time. */
  predicate Admissible(parent: Item, s: seq<Item>, edits: seq<Edit>)
    decreases |edits|
  {
    edits == [] ||
    (ItemOf(edits[0]) != parent && ItemOf(edits[0]) !in s && Admissible(parent, Edited(s, edits[0]), edits[1..]))
  }

  function ItemsOf(s: seq<Item>, edits: seq<Edit>): set<Item> {
    (set x | x in s) + set e | e in edits && !e.Detach? :: e.item
  }

  /** The list lies in the pool, and no item of the pool outside the list has a successor. */
  ghost predicate Pooled(pool: set<Item>, s: seq<Item>)
    reads pool
  {
    (forall x | x in s :: x in pool) && forall x | x in pool && x !in s :: x.next == null
  }

  predicate Replaces(s: seq<Item>, e: Edit) {
    (e.Detach? || e.ReplaceAt?) && 0 <= e.which < |s|
  }

  predicate Refused(s: seq<Item>, e: Edit) {
    (e.InsertAt? && e.which < 0) || (e.ReplaceAt? && !(0 <= e.which < |s|))
  }

  lemma EditedMembers(s: seq<Item>, e: Edit)
    requires Distinct(s) && ItemOf(e) !in s
    ensures forall x | x in Edited(s, e) :: x in s || x == ItemOf(e)
    ensures forall x | x in s && x !in Edited(s, e) :: Replaces(s, e) && x == s[e.which]
    ensures ItemOf(e) != null && ItemOf(e) !in Edited(s, e) ==> Refused(s, e)
  {
    match e
    case Append(item) =>
      assert (s + [item])[|s|] == item;
    case InsertAt(which, item) =>
      if which >= 0 {
        InsertMembers(s, which, item);
      }
    case Detach(which) =>
      if 0 <= which < |s| {
        assert s == s[..which] + [s[which]] + s[which + 1..];
      }
    case ReplaceAt(which, item) =>
      if 0 <= which < |s| {
        assert s[which := item][which] == item;
        assert forall i | 0 <= i < |s| && i != which :: s[which := item][i] == s[i];
      }
  }

  lemma InsertMembers<T>(s: seq<T>, k: nat, x: T)
    ensures x in Insert(s, k, x)
    ensures forall y | y in Insert(s, k, x) :: y in s || y == x
    ensures forall y | y in s :: y in Insert(s, k, x)
  {
    if k < |s| {
      assert s == s[..k] + s[k..];
    }
  }

  lemma LinkedDistinct(parent: Item, s: seq<Item>)
    requires Linked(parent, s)
    ensures Distinct(s)
  {
  }

  method ApplyEdit(parent: Item, e: Edit, ghost s: seq<Item>, ghost pool: set<Item>)
    requires Linked(parent, s) && parent !in pool && Pooled(pool, s)
    requires ItemOf(e) !in s && (ItemOf(e) == null || ItemOf(e) in pool)
    modifies {parent} + pool
    ensures Linked(parent, Edited(s, e)) && Pooled(pool, Edited(s, e))
  {
    hide Linked, Links, Insert, Remove;
    LinkedDistinct(parent, s);
    EditedMembers(s, e);
    match e
    case Append(item) =>
      var _ := AddItemToArray(parent, item, s);
    case InsertAt(which, item) =>
      var _ := InsertItemInArray(parent, which, item, s);
    case Detach(which) =>
      var _ := DetachItemFromArray(parent, which, s);
    case ReplaceAt(which, item) =>
      var _ := ReplaceItemInArray(parent, which, item, s);
  }

  /** Any run of edits leaves a well-linked list that equals the same edits on a plain sequence. */
  method RunEdits(parent: Item, edits: seq<Edit>, ghost s: seq<Item>)
    requires Linked(parent, s) && Admissible(parent, s, edits)
    requires parent !in ItemsOf(s, edits) && Pooled(ItemsOf(s, edits), s)
    modifies {parent} + ItemsOf(s, edits)
    ensures Linked(parent, EditedBy(s, edits))
  {
    ghost var now, pool := s, ItemsOf(s, edits);
    var i := 0;
    assert edits[0..] == edits;
    while i < |edits|
      invariant i <= |edits|
      invariant Linked(parent, now) && Pooled(pool, now)
      invariant Admissible(parent, now, edits[i..]) && EditedBy(now, edits[i..]) == EditedBy(s, edits)
    {
      assert edits[i..][0] == edits[i] && edits[i..][1..] == edits[i + 1..];
      ApplyEdit(parent, edits[i], now, pool);
      now := Edited(now, edits[i]);
      i := i + 1;
    }
  }

  /** What one edit takes out of the list, and what it puts in. */
  function Out(s: seq<Item>, e: Edit): multiset<Item> {
    if Replaces(s, e) then multiset{s[e.which]} else multiset{}
  }

  function In(s: seq<Item>, e: Edit): multiset<Item> {
    if e.Detach? || Refused(s, e) then multiset{} else multiset{e.item}
  }

  function TakenOut(s: seq<Item>, edits: seq<Edit>): multiset<Item>
    decreases |edits|
  {
    if edits == [] then multiset{} else Out(s, edits[0]) + TakenOut(Edited(s, edits[0]), edits[1..])
  }

  function PutIn(s: seq<Item>, edits: seq<Edit>): multiset<Item>
    decreases |edits|
  {
    if edits == [] then multiset{} else In(s, edits[0]) + PutIn(Edited(s, edits[0]), edits[1..])
  }

  lemma InsertConserves<T>(s: seq<T>, k: nat, x: T)
    ensures multiset(Insert(s, k, x)) == multiset(s) + multiset{x}
  {
    if k < |s| {
      assert s == s[..k] + s[k..];
    }
  }

  lemma RemoveConserves<T>(s: seq<T>, k: nat)
    requires k < |s|
    ensures multiset(Remove(s, k)) + multiset{s[k]} == multiset(s)
  {
    assert s == s[..k] + [s[k]] + s[k + 1..];
  }

  lemma ReplaceConserves<T>(s: seq<T>, k: nat, x: T)
    requires k < |s|
    ensures multiset(s[k := x]) + multiset{s[k]} == multiset(s) + multiset{x}
  {
    assert s == s[..k] + [s[k]] + s[k + 1..];
    assert s[k := x] == s[..k] + [x] + s[k + 1..];
  }

  lemma AppendConserves<T>(s: seq<T>, x: T)
    ensures multiset(s + [x]) == multiset(s) + multiset{x}
  {
  }

  /** What an edit makes of the list, in the terms of the lemmas above. */
  lemma EditCases(s: seq<Item>, e: Edit)
    ensures e.Append? ==> Edited(s, e) == s + [e.item] && Out(s, e) == multiset{} && In(s, e) == multiset{e.item}
    ensures e.InsertAt? && e.which >= 0
        ==> Edited(s, e) == Insert(s, e.which, e.item) && Out(s, e) == multiset{} && In(s, e) == multiset{e.item}
    ensures e.Detach? && 0 <= e.which < |s|
        ==> Edited(s, e) == Remove(s, e.which) && Out(s, e) == multiset{s[e.which]} && In(s, e) == multiset{}
    ensures e.ReplaceAt? && 0 <= e.which < |s|
        ==> Edited(s, e) == s[e.which := e.item] && Out(s, e) == multiset{s[e.which]} && In(s, e) == multiset{e.item}
    ensures !e.Append? && !(e.InsertAt? && e.which >= 0) && !(!e.InsertAt? && 0 <= e.which < |s|)
        ==> Edited(s, e) == s && Out(s, e) == multiset{} && In(s, e) == multiset{}
  {
    hide Insert, Remove;
  }

  lemma EditConserves(s: seq<Item>, e: Edit)
    ensures multiset(Edited(s, e)) + Out(s, e) == multiset(s) + In(s, e)
  {
    hide *;
    EditCases(s, e);
    if e.Append? {
      AppendConserves(s, e.item);
    } else if e.InsertAt? {
      if e.which >= 0 {
        InsertConserves(s, e.which, e.item);
      }
    } else if 0 <= e.which < |s| {
      if e.Detach? {
        RemoveConserves(s, e.which);
      } else {
        ReplaceConserves(s, e.which, e.item);
      }
    }
  }

  lemma Chain<T>(s: multiset<T>, i: multiset<T>, o: multiset<T>, mid: multiset<T>,
                 p: multiset<T>, t: multiset<T>, r: multiset<T>)
    requires mid + o == s + i && r + t == mid + p
    ensures r + (o + t) == s + (i + p)
  {
    assert r + (o + t) == (r + t) + o == (mid + p) + o == (mid + o) + p == (s + i) + p;
  }

  /** No run of edits loses or duplicates an item. */
  lemma {:induction false} EditsConserve(s: seq<Item>, edits: seq<Edit>)
    ensures multiset(EditedBy(s, edits)) + TakenOut(s, edits) == multiset(s) + PutIn(s, edits)
    decreases |edits|
  {
    hide Edited, Out, In;
    if edits != [] {
      EditConserves(s, edits[0]);
      var after := Edited(s, edits[0]);
      EditsConserve(after, edits[1..]);
      Chain(multiset(s), In(s, edits[0]), Out(s, edits[0]), multiset(after),
            PutIn(after, edits[1..]), TakenOut(after, edits[1..]), multiset(EditedBy(s, edits)));
    }
  }
}
