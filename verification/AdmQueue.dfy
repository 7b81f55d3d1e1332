/**
 The message queue of adm_os_queue.c: a ring of fixed-size slots with a write pointer and a
 lagging read pointer, proved to be a bounded deque. Each call holds the one global mutex, so a
 call is one step.
 */
module AdmQueue {
  import opened Text

  const INSERT_TO_BACK: int := 0
  const INSERT_OVERWRITE: int := 2

  // ---- slots ----

  /** Where slot k starts. */
  function Offset(k: nat, size: nat): nat { k * size }

  lemma Offsets(k: nat, size: nat)
    ensures Offset(0, size) == 0 && Offset(k + 1, size) == Offset(k, size) + size
    ensures size == 0 ==> Offset(k, size) == 0
  {
  }

  lemma {:induction false} Apart(j: nat, k: nat, size: nat)
    requires j < k
    ensures Offset(j, size) + size <= Offset(k, size)
    decreases k
  {
    hide Offset;
    Offsets(k - 1, size);
    if j < k - 1 {
      Apart(j, k - 1, size);
    }
  }

  predicate Sized(store: Bytes, length: nat, size: nat) { |store| == Offset(length, size) }

  function Slot(store: Bytes, k: nat, length: nat, size: nat): (r: Bytes)
    requires Sized(store, length, size) && k < length
    ensures |r| == size
  {
    Apart(k, length, size);
    store[Offset(k, size)..Offset(k, size) + size]
  }

  /** One turn around the ring at most. */
  function Wrap(i: nat, length: nat): nat { if i >= length then i - length else i }

  function Before(k: nat, length: nat): nat
    requires length > 0
  {
    if k == 0 then length - 1 else k - 1
  }

  /** The waiting messages, front first. */
  function Contents(store: Bytes, first: nat, waiting: nat, length: nat, size: nat): (r: seq<Bytes>)
    requires Sized(store, length, size) && first < length && waiting <= length
    ensures |r| == waiting
  {
    seq(waiting, i requires 0 <= i < waiting => Slot(store, Wrap(first + i, length), length, size))
  }

  /** Writing one slot changes that slot and no other. */
  lemma WriteSlot(store: Bytes, after: Bytes, k: nat, item: Bytes, length: nat, size: nat)
    requires Sized(store, length, size) && k < length && |item| == size
    requires Offset(k, size) + size <= |store|
    requires after == store[..Offset(k, size)] + item + store[Offset(k, size) + size..]
    ensures Sized(after, length, size) && Slot(after, k, length, size) == item
    ensures forall j | 0 <= j < length && j != k :: Slot(after, j, length, size) == Slot(store, j, length, size)
  {
    hide Offset;
    forall j | 0 <= j < length && j != k
      ensures Slot(after, j, length, size) == Slot(store, j, length, size)
    {
      Apart(j, length, size);
      if j < k {
        Apart(j, k, size);
      } else {
        Apart(k, j, size);
      }
    }
  }

  lemma BackContents(was: Bytes, now: Bytes, first: nat, n: nat, length: nat, size: nat, item: Bytes)
    requires Sized(was, length, size) && Sized(now, length, size) && first < length && n < length
    requires Slot(now, Wrap(first + n, length), length, size) == item
    requires forall j | 0 <= j < length && j != Wrap(first + n, length) ::
      Slot(now, j, length, size) == Slot(was, j, length, size)
    ensures Contents(now, first, n + 1, length, size) == Contents(was, first, n, length, size) + [item]
  {
    var a, b := Contents(now, first, n + 1, length, size), Contents(was, first, n, length, size) + [item];
    forall i | 0 <= i <= n
      ensures a[i] == b[i]
    {
      if i < n {
        assert a[i] == Slot(now, Wrap(first + i, length), length, size);
        assert b[i] == Contents(was, first, n, length, size)[i];
      } else {
        assert b[i] == item;
      }
    }
    assert a == b;
  }

  /** A new front slot, keeping n of the messages behind it. */
  lemma FrontContents(was: Bytes, now: Bytes, first: nat, waiting: nat, n: nat, length: nat, size: nat, item: Bytes)
    requires Sized(was, length, size) && Sized(now, length, size)
    requires first < length && n <= waiting <= length && n < length
    requires Slot(now, Before(first, length), length, size) == item
    requires forall j | 0 <= j < length && j != Before(first, length) ::
      Slot(now, j, length, size) == Slot(was, j, length, size)
    ensures Contents(now, Before(first, length), n + 1, length, size) ==
            [item] + Contents(was, first, waiting, length, size)[..n]
  {
    var a := Contents(now, Before(first, length), n + 1, length, size);
    var b := [item] + Contents(was, first, waiting, length, size)[..n];
    forall i | 0 <= i <= n
      ensures a[i] == b[i]
    {
      if i > 0 {
        assert Wrap(Before(first, length) + i, length) == Wrap(first + (i - 1), length);
      }
    }
    assert a == b;
  }

  lemma FrontGone(was: Bytes, now: Bytes, first: nat, n: nat, length: nat, size: nat)
    requires Sized(was, length, size) && Sized(now, length, size) && first < length && 0 < n <= length
    requires forall j | 0 <= j < length && j != first :: Slot(now, j, length, size) == Slot(was, j, length, size)
    ensures Contents(now, Wrap(first + 1, length), n - 1, length, size) == Contents(was, first, n, length, size)[1..]
    ensures Contents(was, first, n, length, size)[0] == Slot(was, first, length, size)
  {
    var a, b := Contents(now, Wrap(first + 1, length), n - 1, length, size), Contents(was, first, n, length, size);
    forall i | 0 <= i < n - 1
      ensures a[i] == b[i + 1]
    {
      assert Wrap(Wrap(first + 1, length) + i, length) == Wrap(first + (i + 1), length);
    }
    assert a == b[1..];
    assert b[0] == Slot(was, Wrap(first + 0, length), length, size);
  }

  /** The deque an insertion should produce. */
  function Inserted(q: seq<Bytes>, item: Bytes, position: int): seq<Bytes> {
    if position == INSERT_TO_BACK then q + [item]
    else if position == INSERT_OVERWRITE && q != [] then [item] + q[..|q| - 1]
    else [item] + q
  }

  lemma InsertedPlace(q: seq<Bytes>, item: Bytes, position: int)
    ensures position == 0 ==> Inserted(q, item, position) == q + [item]
    ensures position == 1 ==> Inserted(q, item, position) == [item] + q
    ensures position == 2 && |q| <= 1 ==> Inserted(q, item, position) == [item]
  {
  }

  /** Whether a send leaves a ring behind: an overwrite must find an empty or one-slot queue;
      without storage an overwrite only counts, so there must be room. */
  predicate Orderly(position: int, waiting: nat, length: nat, size: nat) {
    if size == 0 then waiting < length
    else position == INSERT_OVERWRITE ==> waiting == 0 || length == 1
  }

  class Queue {
    const storage: array<byte>
    const length: nat
    const size: nat
    var writeTo: int
    var readFrom: int
    var waiting: nat
    ghost var first: nat

    ghost predicate Shaped()
      reads storage
    {
      length > 0 && Sized(storage[..], length, size)
    }

    /** The pointers and the count fit a queue whose front is slot f. */
    ghost predicate RingAt(f: nat)
      reads this, storage
    {
      && Shaped()
      && f < length && waiting <= length
      && readFrom == Offset(Before(f, length), size)
      && writeTo == Offset(Wrap(f + waiting, length), size)
    }

    ghost predicate Valid()
      reads this, storage
    {
      RingAt(first)
    }

    ghost function Items(): (r: seq<Bytes>)
      reads this, storage
      requires Valid()
      ensures |r| == waiting
    {
      Contents(storage[..], first, waiting, length, size)
    }

    /** adm_queue_generic_create. */
    constructor (queueLength: nat, itemSize: nat)
      requires queueLength > 0
      ensures Valid() && Items() == [] && writeTo == 0 && readFrom == (queueLength - 1) * itemSize
      ensures length == queueLength && size == itemSize && fresh(storage)
    {
      length := queueLength;
      size := itemSize;
      storage := new byte[queueLength * itemSize];
      new;
      GenericReset();
    }

    method GenericReset()
      requires Shaped()
      modifies this
      ensures Valid() && Items() == [] && writeTo == 0 && readFrom == (length - 1) * size
    {
      Offsets(0, size);
      waiting := 0;
      writeTo := 0;
      readFrom := (length - 1) * size;
      first := 0;
    }

    /** memcpy of one item into the slot at offset `at`. */
    method Store(at: nat, item: Bytes, ghost k: nat)
      requires Shaped() && k < length && at == Offset(k, size) && |item| == size
      modifies storage
      ensures Shaped() && Slot(storage[..], k, length, size) == item
      ensures forall j | 0 <= j < length && j != k ::
        Slot(storage[..], j, length, size) == old(Slot(storage[..], j, length, size))
    {
      hide Offset;
      Apart(k, length, size);
      ghost var was := storage[..];
      forall i | 0 <= i < size {
        storage[at + i] := item[i];
      }
      assert storage[..] == was[..at] + item + was[at + size..];
      WriteSlot(was, storage[..], k, item, length, size);
    }
  
    /** The write pointer moves on by one slot, back to the head at the tail. */
    method AdvanceWrite(ghost k: nat)
      requires Shaped() && k < length && writeTo == Offset(k, size) && size > 0
      modifies this`writeTo
      ensures writeTo == Offset(Wrap(k + 1, length), size)
    {
      hide Offset;
      Offsets(k, size);
      Offsets(0, size);
      writeTo := writeTo + size;
      if k + 1 < length {
        Apart(k + 1, length, size);
      }
      if writeTo >= storage.Length {
        writeTo := 0;
      }
    }

    method RetreatRead(ghost k: nat)
      requires Shaped() && k < length && readFrom == Offset(k, size) && size > 0
      modifies this`readFrom
      ensures readFrom == Offset(Before(k, length), size)
    {
      hide Offset;
      Offsets(length - 1, size);
      readFrom := readFrom - size;
      Offsets(0, size);
      if k > 0 {
        Offsets(k - 1, size);
      }
      if readFrom < 0 {
        readFrom := storage.Length - size;
      }
    }

    method AdvanceRead(ghost k: nat)
      requires Shaped() && k < length && readFrom == Offset(k, size) && size > 0
      modifies this`readFrom
      ensures readFrom == Offset(Wrap(k + 1, length), size)
    {
      hide Offset;
      Offsets(k, size);
      Offsets(0, size);
      readFrom := readFrom + size;
      if k + 1 < length {
        Apart(k + 1, length, size);
      }
      if readFrom >= storage.Length {
        readFrom := 0;
      }
    }

    /** Only one slot fits the read pointer, so a queue has at most one front. */
    lemma FrontUnique(f: nat, g: nat)
      requires Shaped() && size > 0 && f < length && g < length
      requires Offset(f, size) == Offset(g, size)
      ensures f == g
    {
      if f < g {
        Apart(f, g, size);
      } else if g < f {
        Apart(g, f, size);
      }
    }

    /** The branch for the back, which writes at the write pointer. */
    method PutBack(item: Bytes)
      requires Valid() && |item| == size && size > 0 && waiting < length
      modifies this, storage
      ensures Valid() && Items() == old(Items()) + [item]
    {
      hide Offset;
      ghost var was, k := storage[..], Wrap(first + waiting, length);
      Store(writeTo, item, k);
      AdvanceWrite(k);
      waiting := waiting + 1;
      BackContents(was, storage[..], first, waiting - 1, length, size, item);
    }

    /** The branch for the front and for overwriting, which write at the read pointer. */
    method PutFront(item: Bytes, ghost was: Bytes)
      requires Valid() && |item| == size && size > 0 && was == storage[..]
      modifies this`readFrom, this`first, storage
      ensures Shaped() && first == Before(old(first), length) && readFrom == Offset(Before(first, length), size)
      ensures waiting == old(waiting) && writeTo == old(writeTo)
      ensures Slot(storage[..], first, length, size) == item
      ensures forall j | 0 <= j < length && j != first ::
        Slot(storage[..], j, length, size) == Slot(was, j, length, size)
    {
      hide Offset;
      ghost var k := Before(first, length);
      Store(readFrom, item, k);
      RetreatRead(k);
      first := k;
    }

    /** An overwrite of a longer queue that holds something: no front fits the pointers. */
    lemma NoRing(was: nat)
      requires Shaped() && size > 0 && length > 1 && 0 < waiting <= length && was < length
      requires first == Before(was, length) && readFrom == Offset(Before(first, length), size)
      requires writeTo == Offset(Wrap(was + waiting, length), size)
      ensures forall f: nat :: !RingAt(f)
    {
      hide Offset;
      forall f: nat
        ensures !RingAt(f)
      {
        if RingAt(f) {
          FrontUnique(Before(f, length), Before(first, length));
          FrontUnique(Wrap(f + waiting, length), Wrap(was + waiting, length));
          assert false;
        }
      }
    }

    method CopyDataToList(item: Option<Bytes>, position: int)
      requires Valid() && (item.Some? ==> |item.value| == size)
      requires waiting < length || position == INSERT_OVERWRITE
      modifies this, storage
      ensures Sent(item, position)
    {
      hide Offset;
      ghost var was, q := storage[..], Items();
      if size == 0 {
        Stand();
        waiting := waiting + 1;
        if item.Some? && waiting <= length {
          Stand();
          BackContents(was, storage[..], first, waiting - 1, length, size, item.value);
        }
      } else if item == None {
        if position != INSERT_OVERWRITE || waiting == 0 {
          waiting := waiting + 1;
        }
      } else if position == INSERT_TO_BACK {
        PutBack(item.value);
      } else {
        PutAhead(item.value, position);
      }
    }

    method PutAhead(item: Bytes, position: int)
      requires Valid() && |item| == size && size > 0 && position != INSERT_TO_BACK
      requires waiting < length || position == INSERT_OVERWRITE
      modifies this, storage
      ensures Sent(Some(item), position)
    {
      hide Offset, Contents, Slot;
      ghost var was, front := storage[..], first;
      PutFront(item, was);
      if position == INSERT_OVERWRITE && waiting > 0 {
        if length > 1 {
          NoRing(front);
        } else {
          FrontContents(was, storage[..], front, waiting, 0, length, size, item);
        }
      } else {
        FrontContents(was, storage[..], front, waiting, waiting, length, size, item);
        waiting := waiting + 1;
      }
    }

    /** What a send that is let through does. */
    twostate predicate Sent(item: Option<Bytes>, position: int)
      requires old(Valid())
      reads this, storage
    {
      if item.Some? then
        if Orderly(position, old(waiting), length, size) then
          Valid() && Items() == Inserted(old(Items()), item.value, if size == 0 then INSERT_TO_BACK else position)
        else
          forall f: nat :: !RingAt(f)
      else
        && storage[..] == old(storage[..]) && writeTo == old(writeTo) && readFrom == old(readFrom)
        && waiting ==
          if size > 0 && position == INSERT_OVERWRITE && old(waiting) > 0 then old(waiting) else old(waiting) + 1
    }

    /** Behind the others at position 0, before them at position 1; at position 2 it is the one item of
        an empty queue or of a queue of one. */
    twostate predicate Placed(item: Bytes, position: int)
      requires old(Valid())
      reads this, storage
    {
      && (position == 0 ==> Valid() && Items() == old(Items()) + [item])
      && (position == 1 ==> Valid() && Items() == [item] + old(Items()))
      && (position == 2 && (old(waiting) == 0 || length == 1) ==> Valid() && Items() == [item])
    }

    lemma Stand()
      requires size == 0
      ensures forall k: nat :: Offset(k, size) == 0
    {
    }
  
    method CopyDataFromList(buffer: array?<byte>)
      requires Valid() && waiting > 0 && buffer != storage && (buffer != null ==> buffer.Length >= size)
      modifies this`readFrom, this`first, storage, buffer
      ensures Shaped() && first == Wrap(old(first) + 1, length) && readFrom == Offset(old(first), size)
      ensures waiting == old(waiting) && writeTo == old(writeTo)
      ensures forall j | 0 <= j < length && j != old(first) ::
        Slot(storage[..], j, length, size) == old(Slot(storage[..], j, length, size))
      ensures buffer != null ==> buffer[..size] == old(Slot(storage[..], first, length, size))
      ensures buffer != null ==> buffer[size..] == old(buffer[size..])
    {
      hide Offset;
      ghost var was := storage[..];
      if size > 0 {
        AdvanceRead(Before(first, length));
        Apart(first, length, size);
        if buffer != null {
          forall i | 0 <= i < size {
            buffer[i] := storage[readFrom + i];
          }
          assert buffer[..size] == storage[readFrom..readFrom + size];
          assert storage[..] == was;
          Store(readFrom, Repeat(NUL, size), first);
        }
      } else {
        Stand();
      }
      first := Wrap(first + 1, length);
    }

    method GenericSend(item: Option<Bytes>, position: int) returns (ok: bool)
      requires Valid() && (item.Some? ==> |item.value| == size)
      modifies this, storage
      ensures ok == (old(waiting) < length || position == 2)
      ensures ok ==> Sent(item, position)
      ensures ok && item.Some? && size > 0 ==> Placed(item.value, position)
      ensures !ok ==> unchanged(this) && unchanged(storage)
    {
      if waiting < length || position == INSERT_OVERWRITE {
        if item.Some? {
          InsertedPlace(Items(), item.value, position);
        }
        CopyDataToList(item, position);
        return true;
      }
      return false;
    }

    /** The peek flag is not looked at. */
    method GenericRecv(buffer: array?<byte>) returns (ok: bool)
      requires Valid() && buffer != storage && (buffer != null ==> buffer.Length >= size)
      modifies this, storage, buffer
      ensures ok == (old(waiting) > 0)
      ensures ok ==> Valid() && Items() == old(Items())[1..]
      ensures ok && buffer != null ==> buffer[..size] == old(Items())[0] && buffer[size..] == old(buffer[size..])
      ensures !ok ==> unchanged(this) && unchanged(storage) && (buffer != null ==> unchanged(buffer))
    {
      hide Offset;
      if waiting > 0 {
        ghost var was, front := storage[..], first;
        CopyDataFromList(buffer);
        waiting := waiting - 1;
        FrontGone(was, storage[..], front, waiting + 1, length, size);
        return true;
      }
      return false;
    }
  }

  // ---- runs of several senders to the back and receivers ----

  datatype Step = Send(item: Bytes) | Recv

  /** What a plain bounded queue holds, has accepted and has delivered after some steps. */
  datatype Log = Log(queue: seq<Bytes>, accepted: seq<Bytes>, delivered: seq<Bytes>)

  function Do(l: Log, step: Step, length: nat): Log {
    match step
    case Send(item) =>
      if |l.queue| < length then Log(l.queue + [item], l.accepted + [item], l.delivered) else l
    case Recv =>
      if l.queue != [] then Log(l.queue[1..], l.accepted, l.delivered + [l.queue[0]]) else l
  }

  function DoAll(l: Log, steps: seq<Step>, length: nat): Log
    decreases |steps|
  {
    if steps == [] then l else DoAll(Do(l, steps[0], length), steps[1..], length)
  }

  /** Every accepted message is delivered once and in order, or still waiting. */
  lemma {:induction false} FirstInFirstOut(l: Log, steps: seq<Step>, length: nat)
    requires l.accepted == l.delivered + l.queue
    ensures var r := DoAll(l, steps, length); r.accepted == r.delivered + r.queue
    ensures |l.queue| <= length ==> |DoAll(l, steps, length).queue| <= length
    decreases |steps|
  {
    if steps != [] {
      assert l.queue != [] ==> l.queue == [l.queue[0]] + l.queue[1..];
      FirstInFirstOut(Do(l, steps[0], length), steps[1..], length);
    }
  }

  /** Any interleaving of sends and receives on the ring is that run of the plain queue. */
  method Run(q: Queue, steps: seq<Step>) returns (accepted: seq<Bytes>, delivered: seq<Bytes>)
    requires q.Valid() && q.Items() == []
    requires forall s | s in steps && s.Send? :: |s.item| == q.size
    modifies q, q.storage
    ensures q.Valid() && Log(q.Items(), accepted, delivered) == DoAll(Log([], [], []), steps, q.length)
    ensures accepted == delivered + q.Items()
  {
    accepted, delivered := [], [];
    FirstInFirstOut(Log([], [], []), steps, q.length);
    assert steps[0..] == steps;
    hide DoAll;
    var buffer := new byte[q.size];
    var i := 0;
    while i < |steps|
      invariant i <= |steps| && q.Valid()
      invariant DoAll(Log(q.Items(), accepted, delivered), steps[i..], q.length)
        == DoAll(Log([], [], []), steps, q.length)
    {
      DoNext(Log(q.Items(), accepted, delivered), steps, i, q.length);
      if steps[i].Send? {
        assert steps[i] in steps;
        var ok := q.GenericSend(Some(steps[i].item), INSERT_TO_BACK);
        if ok {
          accepted := accepted + [steps[i].item];
        }
      } else {
        var ok := q.GenericRecv(buffer);
        if ok {
          delivered := delivered + [buffer[..q.size]];
        }
      }
      i := i + 1;
    }
    DoNone(Log(q.Items(), accepted, delivered), q.length);
  }

  /** What is sent to the front is received next, and the queue is as before. */
  method FrontThenReceive(q: Queue, item: Bytes, buffer: array<byte>)
    requires q.Valid() && q.waiting < q.length && |item| == q.size > 0
    requires buffer != q.storage && buffer.Length >= q.size
    modifies q, q.storage, buffer
    ensures q.Valid() && q.Items() == old(q.Items()) && buffer[..q.size] == item
  {
    ghost var items := q.Items();
    var sent := q.GenericSend(Some(item), 1);
    var received := q.GenericRecv(buffer);
    assert ([item] + items)[1..] == items;
  }

  lemma DoNext(l: Log, steps: seq<Step>, i: nat, length: nat)
    requires i < |steps|
    ensures DoAll(l, steps[i..], length) == DoAll(Do(l, steps[i], length), steps[i + 1..], length)
  {
    assert steps[i..][1..] == steps[i + 1..];
  }

  lemma DoNone(l: Log, length: nat)
    ensures DoAll(l, [], length) == l
  {
  }
}
