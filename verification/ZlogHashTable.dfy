/**
 zlog's hash table: an array of doubly linked buckets with cached hashes, grown by relinking.
 It is proved to be a finite map, and its iterator to visit each entry once.
 */
module ZlogHashTable {
  import opened Text

  /** Keys are C strings, compared as values. */
  class Entry<V> {
    const hashKey: nat
    const key: Bytes
    var value: V
    var prev: Entry?<V>
    var next: Entry?<V>

    constructor (hashKey: nat, key: Bytes, value: V)
      ensures this.hashKey == hashKey && this.key == key && this.value == value && prev == null && next == null
    {
      this.hashKey, this.key, this.value := hashKey, key, value;
      prev, next := null, null;
    }
  }

  type Buckets<V> = seq<seq<Entry<V>>>

  // ---- links ----

  function NextOf<V>(s: seq<Entry<V>>, i: nat): Entry?<V>
    requires i < |s|
  {
    if i + 1 < |s| then s[i + 1] else null
  }

  function PrevOf<V>(s: seq<Entry<V>>, i: nat): Entry?<V>
    requires i < |s|
  {
    if i > 0 then s[i - 1] else null
  }

  function HeadOf<V>(s: seq<Entry<V>>): Entry?<V> { if s == [] then null else s[0] }

  /** The bucket that starts at head holds s: `prev` and `next` are inverse to each other. */
  ghost predicate Linked<V>(head: Entry?<V>, s: seq<Entry<V>>)
    reads (set x | x in s)`next, (set x | x in s)`prev
  {
    head == HeadOf(s) && forall i | 0 <= i < |s| :: s[i].next == NextOf(s, i) && s[i].prev == PrevOf(s, i)
  }

  // ---- where entries belong ----

  predicate DistinctKeys<V>(s: seq<Entry<V>>) {
    forall i, j | 0 <= i < j < |s| :: s[i].key != s[j].key
  }

  predicate Belongs<V>(x: Entry<V>, b: nat, size: nat, hash: Bytes -> nat) {
    size > 0 && x.hashKey == hash(x.key) && x.hashKey % size == b
  }

  /** The nodes are spread over the buckets by hash, and no bucket has a key twice. */
  predicate Placed<V>(bs: Buckets<V>, nodes: set<Entry<V>>, hash: Bytes -> nat) {
    && (forall b | 0 <= b < |bs| ::
          DistinctKeys(bs[b]) && forall x | x in bs[b] :: Belongs(x, b, |bs|, hash) && x in nodes)
    && (forall x | x in nodes :: |bs| > 0 && x in bs[hash(x.key) % |bs|])
  }

  ghost predicate AllLinked<V>(tab: array<Entry?<V>>, bs: Buckets<V>, nodes: set<Entry<V>>)
    reads tab, nodes`next, nodes`prev
  {
    && tab.Length == |bs|
    && (forall b | 0 <= b < |bs| :: forall x | x in bs[b] :: x in nodes)
    && (forall b | 0 <= b < |bs| :: Linked(tab[b], bs[b]))
  }

  /** Two entries of one table with one key are the same entry. */
  lemma UniqueKey<V>(bs: Buckets<V>, nodes: set<Entry<V>>, hash: Bytes -> nat, x: Entry<V>, y: Entry<V>)
    requires Placed(bs, nodes, hash) && x in nodes && y in nodes && x.key == y.key
    ensures x == y
  {
    var s := bs[hash(x.key) % |bs|];
    var i :| 0 <= i < |s| && s[i] == x;
    var j :| 0 <= j < |s| && s[j] == y;
    assert DistinctKeys(s);
  }

  /** Putting an entry at the head of a bucket; the code is the same in put and in rehash. */
  method PushFront<V>(tab: array<Entry?<V>>, j: nat, p: Entry<V>, ghost s: seq<Entry<V>>)
    requires j < tab.Length && Linked(tab[j], s) && p !in s
    modifies tab, p`next, p`prev, (set x | x in s)`prev
    ensures Linked(tab[j], [p] + s)
    ensures forall b | 0 <= b < tab.Length && b != j :: tab[b] == old(tab[b])
  {
    p.next := null;
    p.prev := null;
    if tab[j] != null {
      tab[j].prev := p;
      p.next := tab[j];
    }
    tab[j] := p;
    ghost var t := [p] + s;
    forall i | 0 <= i < |t|
      ensures t[i].next == NextOf(t, i) && t[i].prev == PrevOf(t, i)
    {
      if i > 0 {
        assert t[i] == s[i - 1];
      }
    }
  }

  lemma Apart<V>(bs: Buckets<V>, nodes: set<Entry<V>>, hash: Bytes -> nat, b: nat, j: nat, p: Entry<V>)
    requires Placed(bs, nodes, hash) && b < |bs| && j < |bs| && b != j && Belongs(p, j, |bs|, hash)
    ensures p !in bs[b] && forall x | x in bs[b] :: x !in bs[j]
  {
  }

  lemma LinkedAt<V>(tab: array<Entry?<V>>, bs: Buckets<V>, nodes: set<Entry<V>>, b: nat)
    requires AllLinked(tab, bs, nodes) && b < |bs|
    ensures tab.Length == |bs| && Linked(tab[b], bs[b]) && forall x | x in bs[b] :: x in nodes
  {
  }

  lemma PushPlaced<V>(bs: Buckets<V>, nodes: set<Entry<V>>, j: nat, p: Entry<V>, hash: Bytes -> nat)
    requires Placed(bs, nodes, hash) && j < |bs| && Belongs(p, j, |bs|, hash)
    requires forall x | x in nodes :: x.key != p.key
    ensures Placed(bs[j := [p] + bs[j]], nodes + {p}, hash)
    ensures var cs := bs[j := [p] + bs[j]]; forall b | 0 <= b < |cs| :: forall x | x in cs[b] :: x in nodes + {p}
  {
  }

  /** The same on the whole table. */
  method PushEntry<V>(tab: array<Entry?<V>>, j: nat, p: Entry<V>,
                      ghost bs: Buckets<V>, ghost nodes: set<Entry<V>>, ghost hash: Bytes -> nat)
    requires AllLinked(tab, bs, nodes) && Placed(bs, nodes, hash) && j < |bs| && Belongs(p, j, |bs|, hash)
    requires forall x | x in nodes :: x.key != p.key
    modifies tab, p`next, p`prev, nodes`prev
    ensures AllLinked(tab, bs[j := [p] + bs[j]], nodes + {p}) && Placed(bs[j := [p] + bs[j]], nodes + {p}, hash)
  {
    hide Placed, Linked, Belongs;
    PushPlaced(bs, nodes, j, p, hash);
    LinkedAt(tab, bs, nodes, j);
    PushFront(tab, j, p, bs[j]);
    ghost var cs := bs[j := [p] + bs[j]];
    forall b | 0 <= b < |cs|
      ensures Linked(tab[b], cs[b])
    {
      if b != j {
        Apart(bs, nodes, hash, b, j, p);
        assert old(Linked(tab[b], bs[b]));
      }
    }
  }

  /** Walking one bucket for a key. */
  method Search<V>(head: Entry?<V>, key: Bytes, ghost s: seq<Entry<V>>) returns (p: Entry?<V>)
    requires Linked(head, s)
    ensures p == null ==> forall x | x in s :: x.key != key
    ensures p != null ==> p in s && p.key == key
  {
    p := head;
    ghost var k := 0;
    while p != null
      invariant k <= |s| && p == if k < |s| then s[k] else null
      invariant forall i | 0 <= i < k :: s[i].key != key
      decreases |s| - k
    {
      if key == p.key {
        return;
      }
      p := p.next;
      k := k + 1;
    }
  }

  /** The entries of the table are the entries of the map. */
  ghost predicate Holds<V>(nodes: set<Entry<V>>, m: map<Bytes, V>)
    reads nodes`value
  {
    && (forall x | x in nodes :: x.key in m && m[x.key] == x.value)
    && (forall k | k in m :: exists x | x in nodes :: x.key == k)
  }

  lemma HoldsWith<V>(nodes: set<Entry<V>>, m: map<Bytes, V>, p: Entry<V>)
    requires Holds(nodes, m) && p.key !in m
    ensures Holds(nodes + {p}, m[p.key := p.value]) && |m[p.key := p.value]| == |m| + 1
    ensures forall x | x in nodes :: x.key != p.key
  {
    var n := m[p.key := p.value];
    assert n.Keys == m.Keys + {p.key};
    forall k | k in n
      ensures exists x | x in nodes + {p} :: x.key == k
    {
      if k == p.key {
        assert p in nodes + {p};
      } else {
        var x :| x in nodes && x.key == k;
        assert x in nodes + {p};
      }
    }
  }

  lemma HoldsNothing<V>()
    ensures Holds<V>({}, map[])
  {
  }

  lemma HoldsWithout<V>(nodes: set<Entry<V>>, m: map<Bytes, V>, p: Entry<V>)
    requires Holds(nodes, m) && p in nodes && forall x | x in nodes && x.key == p.key :: x == p
    ensures p.key in m && Holds(nodes - {p}, m - {p.key}) && |m - {p.key}| == |m| - 1
  {
    var n := m - {p.key};
    assert m == n[p.key := m[p.key]];
    forall k | k in n
      ensures exists x | x in nodes - {p} :: x.key == k
    {
      var x :| x in nodes && x.key == k;
      assert x in nodes - {p};
    }
  }

  class HashTable<V> {
    var nelem: nat
    var tab: array<Entry?<V>>
    const hash: Bytes -> nat
    ghost var buckets: Buckets<V>
    ghost var nodes: set<Entry<V>>
    ghost var model: map<Bytes, V>

    ghost predicate Valid()
      reads this, tab, nodes
    {
      && tab.Length > 0 && tab.Length == |buckets|
      && AllLinked(tab, buckets, nodes) && Placed(buckets, nodes, hash)
      && Holds(nodes, model)
      && nelem == |model| && 10 * nelem <= 13 * tab.Length + 10
    }

    constructor (size: nat, hash: Bytes -> nat)
      requires size > 0
      ensures Valid() && model == map[] && fresh(tab) && this.hash == hash && nodes == {}
    {
      this.hash := hash;
      nelem := 0;
      tab := new Entry?<V>[size](i => null);
      buckets := seq(size, i => []);
      nodes := {};
      model := map[];
    }

    method GetEntry(key: Bytes) returns (p: Entry?<V>)
      requires Valid()
      ensures p == null <==> key !in model
      ensures p != null ==> p in nodes && p.key == key && p.value == model[key]
    {
      var i := hash(key) % tab.Length;
      LinkedAt(tab, buckets, nodes, i);
      p := Search(tab[i], key, buckets[i]);
    }

    method Get(key: Bytes) returns (r: Option<V>)
      requires Valid()
      ensures r == if key in model then Some(model[key]) else None
    {
      var p := GetEntry(key);
      return if p != null then Some(p.value) else None;
    }

    /** Linking in an entry for a new key. */
    method Insert(p: Entry<V>)
      requires Valid() && p.hashKey == hash(p.key) && p.key !in model
      requires 10 * nelem <= 13 * tab.Length
      modifies this`nelem, this`buckets, this`nodes, this`model, tab, p`next, p`prev, nodes`prev
      ensures Valid() && model == old(model)[p.key := old(p.value)] && tab == old(tab)
      ensures nodes == old(nodes) + {p}
    {
      hide AllLinked, Linked, Placed, Holds;
      HoldsWith(nodes, model, p);
      var i := p.hashKey % tab.Length;
      PushEntry(tab, i, p, buckets, nodes, hash);
      buckets := buckets[i := [p] + buckets[i]];
      nodes := nodes + {p};
      model := model[p.key := p.value];
      nelem := nelem + 1;
    }

    /** Writing a new value into the entry of its key. */
    method SetValue(p: Entry<V>, value: V)
      requires Valid() && p in nodes
      modifies this`model, p`value
      ensures Valid() && model == old(model)[p.key := value]
    {
      hide AllLinked, Linked, Placed;
      forall x | x in nodes && x.key == p.key
        ensures x == p
      {
        UniqueKey(buckets, nodes, hash, x, p);
      }
      p.value := value;
      model := model[p.key := value];
    }

    method Put(key: Bytes, value: V)
      requires Valid()
      modifies this, tab, nodes
      ensures Valid() && model == old(model)[key := value]
      ensures tab == old(tab) || fresh(tab)
      ensures tab.Length ==
        if key !in old(model) && 10 * |old(model)| > 13 * old(tab).Length then 2 * old(tab).Length
        else old(tab).Length
      ensures fresh(nodes - old(nodes))
    {
      hide AllLinked, Linked, Placed, Holds;
      var p := GetEntry(key);
      if p != null {
        SetValue(p, value);
      } else {
        if 10 * nelem > 13 * tab.Length {
          Rehash();
        }
        p := new Entry(hash(key), key, value);
        Insert(p);
      }
    }

    method Remove(key: Bytes)
      requires Valid()
      modifies this, tab, nodes
      ensures Valid() && model == old(model) - {key} && tab == old(tab) && nodes <= old(nodes)
    {
      hide AllLinked, Linked, Placed, Without;
      var i := hash(key) % tab.Length;
      LinkedAt(tab, buckets, nodes, i);
      BucketOf(buckets, nodes, hash, key);
      var p := Search(tab[i], key, buckets[i]);
      if p == null {
        assert model - {key} == model;
        return;
      }
      ghost var k :| 0 <= k < |buckets[i]| && buckets[i][k] == p;
      Discard(p, i, k);
    }

    method Discard(p: Entry<V>, i: nat, ghost k: nat)
      requires Valid() && i < |buckets| && k < |buckets[i]| && buckets[i][k] == p
      modifies this, tab, nodes
      ensures Valid() && model == old(model) - {p.key} && tab == old(tab) && nodes <= old(nodes)
    {
      hide AllLinked, Linked, Placed, Without, Holds;
      LinkedAt(tab, buckets, nodes, i);
      forall x | x in nodes && x.key == p.key
        ensures x == p
      {
        UniqueKey(buckets, nodes, hash, x, p);
      }
      HoldsWithout(nodes, model, p);
      UnlinkEntry(tab, i, p, buckets, nodes, k, hash);
      buckets := buckets[i := Without(buckets[i], k)];
      nodes := nodes - {p};
      model := model - {p.key};
      nelem := nelem - 1;
    }

    method Clean()
      requires Valid()
      modifies this, tab
      ensures Valid() && model == map[] && tab == old(tab) && nodes == {}
    {
      hide AllLinked, Linked, Placed, Holds;
      HoldsNothing<V>();
      AllLinkedAt(tab, buckets, nodes);
      var i := 0;
      while i < tab.Length
        invariant i <= tab.Length && tab == old(tab) && buckets == old(buckets)
        invariant forall b | 0 <= b < i :: tab[b] == null
        invariant forall b | i <= b < tab.Length :: Linked(tab[b], buckets[b])
        modifies tab
      {
        WalkAll(tab[i], buckets[i]);
        tab[i] := null;
        i := i + 1;
      }
      nelem := 0;
      buckets, nodes, model := seq(tab.Length, b => []), {}, map[];
      NothingYet(tab, buckets, hash);
    }

    /** The first entry of the walk, and where it sits. */
    method Begin() returns (p: Entry?<V>, ghost b: nat, ghost k: nat)
      requires Valid()
      ensures p == null ==> Flat(buckets) == []
      ensures p != null
        ==> b < |buckets| && k < |buckets[b]| && buckets[b][k] == p && From(buckets, b, k) == Flat(buckets)
    {
      hide Placed, Linked, Flat;
      p, b := FirstAfter(0);
      k := 0;
      FlatAll(buckets);
    }

    /** The entry after p: the next of its bucket, or the head of the next bucket in use. */
    method Next(p: Entry<V>, ghost b: nat, ghost k: nat) returns (q: Entry?<V>, ghost c: nat, ghost m: nat)
      requires Valid() && b < |buckets| && k < |buckets[b]| && buckets[b][k] == p
      ensures q == null ==> From(buckets, b, k) == [p]
      ensures q != null ==> c < |buckets| && m < |buckets[c]| && buckets[c][m] == q
                            && From(buckets, b, k) == [p] + From(buckets, c, m)
    {
      hide Placed, Linked, Flat;
      LinkedAt(tab, buckets, nodes, b);
      LinkNext(tab[b], buckets[b], k);
      if p.next != null {
        FromNext(buckets, b, k);
        return p.next, b, k + 1;
      }
      PlaceOf(buckets, nodes, hash, b, k);
      FromLast(buckets, b, k);
      q, c := FirstAfter(p.hashKey % tab.Length + 1);
      m := 0;
    }

    /** The scan over the buckets for one in use. */
    method FirstAfter(start: nat) returns (p: Entry?<V>, ghost b: nat)
      requires Valid() && start <= tab.Length
      ensures p == null ==> Flat(buckets[start..]) == []
      ensures p != null
        ==> b < |buckets| && buckets[b] != [] && buckets[b][0] == p && From(buckets, b, 0) == Flat(buckets[start..])
    {
      hide Placed, Linked, Flat;
      var j := start;
      while j < tab.Length
        invariant start <= j <= tab.Length && Flat(buckets[j..]) == Flat(buckets[start..])
      {
        LinkedAt(tab, buckets, nodes, j);
        LinkHead(tab[j], buckets[j]);
        FlatFrom(buckets, j);
        if tab[j] != null {
          return tab[j], j;
        }
        j := j + 1;
      }
      FlatNone(buckets);
      return null, 0;
    }

    /** zc_hashtable_foreach visits every entry once: as many as the map has keys, one per key. */
    method ForEach() returns (visited: seq<Entry<V>>)
      requires Valid()
      ensures visited == Flat(buckets) && |visited| == nelem
      ensures forall i, j | 0 <= i < j < |visited| :: visited[i].key != visited[j].key
      ensures forall x | x in visited :: x.key in model && x.value == model[x.key]
      ensures forall k | k in model :: exists x | x in visited :: x.key == k
    {
      hide *;
      visited := [];
      var p: Entry?<V>;
      ghost var b: nat, k: nat;
      p, b, k := Begin();
      while p != null
        invariant p == null ==> visited == Flat(buckets)
        invariant p != null ==> b < |buckets| && k < |buckets[b]| && buckets[b][k] == p
        invariant p != null ==> visited + From(buckets, b, k) == Flat(buckets)
        decreases if p == null then 0 else 1 + |From(buckets, b, k)|
      {
        ghost var done := visited;
        visited := visited + [p];
        var q: Entry?<V>;
        ghost var c: nat, m: nat;
        q, c, m := Next(p, b, k);
        StepOn(done, p, if q == null then [] else From(buckets, c, m));
        p, b, k := q, c, m;
      }
      VisitedAll(visited);
    }

    lemma VisitedAll(visited: seq<Entry<V>>)
      requires Valid() && visited == Flat(buckets)
      ensures |visited| == nelem
      ensures forall i, j | 0 <= i < j < |visited| :: visited[i].key != visited[j].key
      ensures forall x | x in visited :: x.key in model && x.value == model[x.key]
      ensures forall k | k in model :: exists x | x in visited :: x.key == k
    {
      hide AllLinked, Placed, Linked, Flat;
      FlatNodes(buckets, nodes, hash);
      OnePerKey(visited, model);
    }

    /** Twice as many buckets, and every entry relinked into its new one. */
    method Rehash()
      requires Valid()
      modifies this`tab, this`buckets, nodes`next, nodes`prev
      ensures Valid() && fresh(tab) && tab.Length == 2 * old(tab.Length)
    {
      hide AllLinked, Linked, Placed, Below, DistinctKeys, Holds;
      var tabSize := 2 * tab.Length;
      var newTab := new Entry?<V>[tabSize](i => null);
      ghost var bs: Buckets<V> := seq(tabSize, i => []);
      BelowEnds(nodes, hash, tab.Length);
      NothingYet(newTab, bs, hash);
      AllLinkedAt(tab, buckets, nodes);
      var i := 0;
      while i < tab.Length
        invariant i <= tab.Length && newTab.Length == |bs| == tabSize
        invariant tab == old(tab) && buckets == old(buckets)
        invariant AllLinked(newTab, bs, Below(nodes, hash, tab.Length, i))
        invariant Placed(bs, Below(nodes, hash, tab.Length, i), hash)
        invariant forall b | i <= b < tab.Length :: Linked(tab[b], buckets[b])
      {
        BelowStep(buckets, nodes, hash, i);
        label before:
        bs := MoveBucket(newTab, tab[i], buckets[i], bs, Below(nodes, hash, tab.Length, i), hash);
        forall b | i < b < tab.Length
          ensures Linked(tab[b], buckets[b])
        {
          BelowLater(buckets, nodes, hash, i, b);
          assert old@before(Linked(tab[b], buckets[b]));
        }
        i := i + 1;
      }
      tab, buckets := newTab, bs;
    }
  }

  lemma BucketOf<V>(bs: Buckets<V>, nodes: set<Entry<V>>, hash: Bytes -> nat, key: Bytes)
    requires Placed(bs, nodes, hash) && |bs| > 0
    ensures forall x | x in nodes && x.key == key :: x in bs[hash(key) % |bs|]
    ensures DistinctKeys(bs[hash(key) % |bs|])
  {
  }

  // ---- taking an entry out ----

  function Without<V>(s: seq<Entry<V>>, k: nat): seq<Entry<V>>
    requires k < |s|
  {
    s[..k] + s[k + 1..]
  }

  lemma WithoutAt<V>(s: seq<Entry<V>>, k: nat, i: nat)
    requires k < |s| && i < |s| - 1
    ensures Without(s, k)[i] == s[if i < k then i else i + 1]
    ensures NextOf(Without(s, k), i) == if i + 1 == k then NextOf(s, k) else NextOf(s, if i < k then i else i + 1)
    ensures PrevOf(Without(s, k), i) == if i == k then PrevOf(s, k) else PrevOf(s, if i < k then i else i + 1)
  {
  }

  lemma WithoutMembers<V>(s: seq<Entry<V>>, k: nat)
    requires k < |s| && DistinctKeys(s)
    ensures DistinctKeys(Without(s, k)) && s[k] !in Without(s, k)
    ensures forall x | x in Without(s, k) :: x in s
    ensures forall x | x in s && x != s[k] :: x in Without(s, k)
  {
    var t := Without(s, k);
    assert s == s[..k] + [s[k]] + s[k + 1..];
    forall i | 0 <= i < |t|
      ensures t[i] == s[if i < k then i else i + 1]
    {
    }
  }

  /** The pointer surgery of remove on one bucket. */
  method Unlink<V>(tab: array<Entry?<V>>, j: nat, p: Entry<V>, ghost s: seq<Entry<V>>, ghost k: nat)
    requires j < tab.Length && Linked(tab[j], s) && k < |s| && s[k] == p && DistinctKeys(s)
    modifies tab, s`next, s`prev
    ensures Linked(tab[j], Without(s, k))
    ensures forall b | 0 <= b < tab.Length && b != j :: tab[b] == old(tab[b])
  {
    hide NextOf, PrevOf, Without;
    Ends(s, k);
    assert p.next == NextOf(s, k) && p.prev == PrevOf(s, k);
    if p.next != null {
      p.next.prev := p.prev;
    }
    if p.prev != null {
      p.prev.next := p.next;
    } else {
      tab[j] := p.next;
    }
    ghost var t := Without(s, k);
    WithoutHead(s, k);
    forall i | 0 <= i < |t|
      ensures t[i].next == NextOf(t, i) && t[i].prev == PrevOf(t, i)
    {
      WithoutAt(s, k, i);
    }
  }

  lemma Ends<V>(s: seq<Entry<V>>, k: nat)
    requires k < |s|
    ensures NextOf(s, k) == (if k + 1 < |s| then s[k + 1] else null) && PrevOf(s, k) == if k > 0 then s[k - 1] else null
  {
  }

  lemma WithoutHead<V>(s: seq<Entry<V>>, k: nat)
    requires k < |s|
    ensures |Without(s, k)| == |s| - 1 && HeadOf(Without(s, k)) == if k == 0 then NextOf(s, 0) else s[0]
  {
  }

  lemma UnlinkPlaced<V>(bs: Buckets<V>, nodes: set<Entry<V>>, hash: Bytes -> nat, j: nat, k: nat)
    requires Placed(bs, nodes, hash) && j < |bs| && k < |bs[j]|
    ensures bs[j][k] in nodes && Placed(bs[j := Without(bs[j], k)], nodes - {bs[j][k]}, hash)
    ensures Belongs(bs[j][k], j, |bs|, hash)
    ensures var cs := bs[j := Without(bs[j], k)];
      forall b | 0 <= b < |cs| :: forall x | x in cs[b] :: x in nodes - {bs[j][k]}
  {
    WithoutMembers(bs[j], k);
    var p := bs[j][k];
    assert Belongs(p, j, |bs|, hash);
    hide Without, DistinctKeys;
    var cs := bs[j := Without(bs[j], k)];
    forall b, x | 0 <= b < |cs| && x in cs[b]
      ensures Belongs(x, b, |bs|, hash) && x in nodes - {p}
    {
      if b != j {
        assert x in bs[b];
        assert Belongs(x, b, |bs|, hash);
      }
    }
    forall x | x in nodes - {p}
      ensures x in cs[hash(x.key) % |cs|]
    {
    }
  }

  method UnlinkEntry<V>(tab: array<Entry?<V>>, j: nat, p: Entry<V>,
                        ghost bs: Buckets<V>, ghost nodes: set<Entry<V>>, ghost k: nat, ghost hash: Bytes -> nat)
    requires AllLinked(tab, bs, nodes) && Placed(bs, nodes, hash) && j < |bs| && k < |bs[j]| && bs[j][k] == p
    modifies tab, nodes`next, nodes`prev
    ensures AllLinked(tab, bs[j := Without(bs[j], k)], nodes - {p})
    ensures Placed(bs[j := Without(bs[j], k)], nodes - {p}, hash)
  {
    hide Placed, Linked, Belongs, Without, DistinctKeys;
    UnlinkPlaced(bs, nodes, hash, j, k);
    LinkedAt(tab, bs, nodes, j);
    DistinctAt(bs, nodes, hash, j);
    Unlink(tab, j, p, bs[j], k);
    ghost var cs := bs[j := Without(bs[j], k)];
    forall b | 0 <= b < |cs|
      ensures Linked(tab[b], cs[b])
    {
      if b != j {
        Apart(bs, nodes, hash, b, j, p);
        assert old(Linked(tab[b], bs[b]));
      }
    }
  }

  lemma DistinctAt<V>(bs: Buckets<V>, nodes: set<Entry<V>>, hash: Bytes -> nat, j: nat)
    requires Placed(bs, nodes, hash) && j < |bs|
    ensures DistinctKeys(bs[j])
  {
  }

  /** The walk of clean and del over one bucket, which releases each entry after reading its next. */
  method WalkAll<V>(head: Entry?<V>, ghost s: seq<Entry<V>>)
    requires Linked(head, s)
  {
    var p := head;
    ghost var k := 0;
    while p != null
      invariant k <= |s| && p == if k < |s| then s[k] else null
      decreases |s| - k
    {
      p := p.next;
      k := k + 1;
    }
  }

  /** The nodes rehash has met before bucket i. */
  function Below<V>(nodes: set<Entry<V>>, hash: Bytes -> nat, size: nat, i: nat): set<Entry<V>>
    requires size > 0
  {
    set x | x in nodes && hash(x.key) % size < i
  }

  lemma BelowEnds<V>(nodes: set<Entry<V>>, hash: Bytes -> nat, size: nat)
    requires size > 0
    ensures Below(nodes, hash, size, 0) == {} && Below(nodes, hash, size, size) == nodes
  {
  }

  lemma BelowStep<V>(bs: Buckets<V>, nodes: set<Entry<V>>, hash: Bytes -> nat, i: nat)
    requires Placed(bs, nodes, hash) && i < |bs|
    ensures Below(nodes, hash, |bs|, i + 1) == Below(nodes, hash, |bs|, i) + Elems(bs[i])
    ensures forall x | x in Below(nodes, hash, |bs|, i) :: x in nodes
    ensures DistinctKeys(bs[i])
    ensures forall x | x in bs[i] :: x in nodes && x.hashKey == hash(x.key)
    ensures forall x | x in bs[i] :: forall y | y in Below(nodes, hash, |bs|, i) :: y.key != x.key
  {
  }

  lemma BelowLater<V>(bs: Buckets<V>, nodes: set<Entry<V>>, hash: Bytes -> nat, i: nat, b: nat)
    requires Placed(bs, nodes, hash) && i < b < |bs|
    ensures forall x | x in bs[b] :: x !in Below(nodes, hash, |bs|, i) && x !in bs[i]
  {
  }

  lemma NothingYet<V>(tab: array<Entry?<V>>, bs: Buckets<V>, hash: Bytes -> nat)
    requires tab.Length == |bs| && forall b | 0 <= b < |bs| :: tab[b] == null && bs[b] == []
    ensures AllLinked(tab, bs, {}) && Placed(bs, {}, hash)
  {
  }

  lemma AllLinkedAt<V>(tab: array<Entry?<V>>, bs: Buckets<V>, nodes: set<Entry<V>>)
    requires AllLinked(tab, bs, nodes)
    ensures tab.Length == |bs| && forall b | 0 <= b < |bs| :: Linked(tab[b], bs[b])
  {
  }

  function Elems<V>(s: seq<Entry<V>>): set<Entry<V>> { set x | x in s }

  lemma NextFresh<V>(s: seq<Entry<V>>, k: nat, moved: set<Entry<V>>)
    requires DistinctKeys(s) && k < |s| && forall y | y in moved :: y.key != s[k].key
    ensures forall y | y in moved + Elems(s[..k]) :: y.key != s[k].key
    ensures forall m | k < m < |s| :: s[m] != s[k]
    ensures moved + Elems(s[..k]) + {s[k]} == moved + Elems(s[..k + 1])
  {
    assert s[..k + 1] == s[..k] + [s[k]];
  }

  lemma ElemsEnds<V>(s: seq<Entry<V>>)
    ensures Elems(s[..0]) == {} && Elems(s[..|s|]) == Elems(s)
  {
    assert s[..|s|] == s;
  }

  /** Relinking one entry into its new bucket. */
  method MoveOne<V>(tab: array<Entry?<V>>, p: Entry<V>, ghost s: seq<Entry<V>>, ghost k: nat,
                    ghost bs: Buckets<V>, ghost moved: set<Entry<V>>, ghost hash: Bytes -> nat)
    returns (ghost cs: Buckets<V>)
    requires tab.Length == |bs| > 0 && k < |s| && s[k] == p && DistinctKeys(s) && p.hashKey == hash(p.key)
    requires AllLinked(tab, bs, moved + Elems(s[..k])) && Placed(bs, moved + Elems(s[..k]), hash)
    requires forall y | y in moved :: y.key != p.key
    modifies tab, p`next, p`prev, (moved + Elems(s[..k]))`prev
    ensures |cs| == |bs|
    ensures AllLinked(tab, cs, moved + Elems(s[..k + 1])) && Placed(cs, moved + Elems(s[..k + 1]), hash)
    ensures forall m | k < m < |s| :: s[m].next == old(s[m].next)
  {
    hide AllLinked, Linked, Placed, DistinctKeys, Elems;
    NextFresh(s, k, moved);
    var j := p.hashKey % tab.Length;
    PushEntry(tab, j, p, bs, moved + Elems(s[..k]), hash);
    cs := bs[j := [p] + bs[j]];
  }

  /** The inner loop of rehash: one old bucket relinked entry by entry. */
  method MoveBucket<V>(tab: array<Entry?<V>>, head: Entry?<V>, ghost s: seq<Entry<V>>,
                       ghost bs: Buckets<V>, ghost moved: set<Entry<V>>, ghost hash: Bytes -> nat)
    returns (ghost cs: Buckets<V>)
    requires tab.Length == |bs| > 0 && Linked(head, s) && AllLinked(tab, bs, moved) && Placed(bs, moved, hash)
    requires DistinctKeys(s)
    requires forall x | x in s :: x.hashKey == hash(x.key) && forall y | y in moved :: y.key != x.key
    modifies tab, s`next, s`prev, moved`prev
    ensures |cs| == |bs|
    ensures AllLinked(tab, cs, moved + Elems(s)) && Placed(cs, moved + Elems(s), hash)
  {
    assert head == HeadOf(s) && forall m | 0 <= m < |s| :: s[m].next == NextOf(s, m);
    hide AllLinked, Linked, Placed, DistinctKeys, Elems;
    ElemsEnds(s);
    cs := bs;
    var p := head;
    ghost var k, now := 0, moved;
    while p != null
      invariant k <= |s| && p == if k < |s| then s[k] else null
      invariant now == moved + Elems(s[..k])
      invariant |cs| == |bs| && AllLinked(tab, cs, now) && Placed(cs, now, hash)
      invariant forall m | k <= m < |s| :: s[m].next == NextOf(s, m)
      decreases |s| - k
    {
      var q := p.next;
      cs := MoveOne(tab, p, s, k, cs, moved, hash);
      now := moved + Elems(s[..k + 1]);
      p := q;
      k := k + 1;
    }
  }

  // ---- the order of the walk ----

  lemma StepOn<T>(done: seq<T>, p: T, rest: seq<T>)
    ensures done + ([p] + rest) == (done + [p]) + rest
    ensures rest == [] ==> (done + [p]) + rest == done + [p] && [p] + rest == [p]
  {
  }

  function Flat<V>(bs: Buckets<V>): seq<Entry<V>> {
    if bs == [] then [] else bs[0] + Flat(bs[1..])
  }

  /** What is left of the walk at entry k of bucket b. */
  function From<V>(bs: Buckets<V>, b: nat, k: nat): seq<Entry<V>>
    requires b < |bs| && k < |bs[b]|
  {
    bs[b][k..] + Flat(bs[b + 1..])
  }

  lemma FlatAll<V>(bs: Buckets<V>)
    ensures bs[0..] == bs
  {
  }

  lemma FlatNone<V>(bs: Buckets<V>)
    ensures Flat(bs[|bs|..]) == []
  {
  }

  lemma FlatFrom<V>(bs: Buckets<V>, j: nat)
    requires j < |bs|
    ensures bs[j] == [] ==> Flat(bs[j..]) == Flat(bs[j + 1..])
    ensures bs[j] != [] ==> From(bs, j, 0) == Flat(bs[j..])
  {
    assert bs[j..][1..] == bs[j + 1..];
    assert bs[j][0..] == bs[j];
  }

  lemma FromNext<V>(bs: Buckets<V>, b: nat, k: nat)
    requires b < |bs| && k + 1 < |bs[b]|
    ensures From(bs, b, k) == [bs[b][k]] + From(bs, b, k + 1)
  {
    assert bs[b][k..] == [bs[b][k]] + bs[b][k + 1..];
  }

  lemma FromLast<V>(bs: Buckets<V>, b: nat, k: nat)
    requires b < |bs| && k + 1 == |bs[b]|
    ensures From(bs, b, k) == [bs[b][k]] + Flat(bs[b + 1..])
  {
    assert bs[b][k..] == [bs[b][k]];
  }

  lemma LinkNext<V>(head: Entry?<V>, s: seq<Entry<V>>, k: nat)
    requires Linked(head, s) && k < |s|
    ensures s[k].next == if k + 1 < |s| then s[k + 1] else null
  {
  }

  lemma LinkHead<V>(head: Entry?<V>, s: seq<Entry<V>>)
    requires Linked(head, s)
    ensures head == if s == [] then null else s[0]
  {
  }

  lemma PlaceOf<V>(bs: Buckets<V>, nodes: set<Entry<V>>, hash: Bytes -> nat, b: nat, k: nat)
    requires Placed(bs, nodes, hash) && b < |bs| && k < |bs[b]|
    ensures bs[b][k].hashKey % |bs| == b
  {
    assert Belongs(bs[b][k], b, |bs|, hash);
  }

  lemma {:induction false} FlatFromBucket<V>(bs: Buckets<V>, nodes: set<Entry<V>>, hash: Bytes -> nat, j: nat)
    requires Placed(bs, nodes, hash) && j <= |bs|
    ensures DistinctKeys(Flat(bs[j..]))
    ensures forall x | x in Flat(bs[j..]) :: x in nodes && |bs| > 0 && j <= hash(x.key) % |bs|
    ensures forall x | x in nodes && |bs| > 0 && j <= hash(x.key) % |bs| :: x in Flat(bs[j..])
    decreases |bs| - j
  {
    if j < |bs| {
      FlatFromBucket(bs, nodes, hash, j + 1);
      assert bs[j..][1..] == bs[j + 1..];
      assert forall x | x in bs[j] :: Belongs(x, j, |bs|, hash);
    }
  }

  lemma FlatNodes<V>(bs: Buckets<V>, nodes: set<Entry<V>>, hash: Bytes -> nat)
    requires Placed(bs, nodes, hash)
    ensures DistinctKeys(Flat(bs))
    ensures forall x :: x in Flat(bs) <==> x in nodes
  {
    FlatFromBucket(bs, nodes, hash, 0);
    FlatAll(bs);
  }

  lemma {:induction false} OnePerKey<V>(s: seq<Entry<V>>, m: map<Bytes, V>)
    requires DistinctKeys(s)
    requires forall x | x in s :: x.key in m
    requires forall k | k in m :: exists x | x in s :: x.key == k
    ensures |s| == |m|
    decreases |s|
  {
    if s == [] {
      assert m.Keys == {};
    } else {
      var last, t := s[|s| - 1], s[..|s| - 1];
      var n := m - {last.key};
      assert m == n[last.key := m[last.key]];
      forall k | k in n
        ensures exists x | x in t :: x.key == k
      {
        var x :| x in s && x.key == k;
        assert x in t;
      }
      OnePerKey(t, n);
    }
  }
}
