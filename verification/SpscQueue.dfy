/** The single-producer single-consumer ring (cpp/include/spsc_queue.h), one call at a time.
    SpscProtocol interleaves the two sides step by step. */
module SpscQueue {
  import opened Prelude
  import opened RingArith

  /** The ring's memory: its slots and the two published indices. */
  datatype Ring<T> = Ring(slots: seq<T>, head: nat, tail: nat) {
    ghost predicate Valid() {
      |slots| >= 2 && head < |slots| && tail < |slots|
    }

    ghost function Size(): nat
      requires Valid()
    {
      Dist(head, tail, |slots|)
    }

    /** The published and not yet popped items, oldest first. */
    ghost function Live(): seq<T>
      requires Valid()
    {
      seq(Size(), i requires 0 <= i < Size() => slots[Slot(head, i, |slots|)])
    }

    /** One slot always stays free. */
    ghost predicate Full()
      requires Valid()
    {
      Size() == |slots| - 1
    }

    ghost function Push(x: T): Ring<T>
      requires Valid() && !Full()
    {
      Ring(slots[tail := x], head, Slot(tail, 1, |slots|))
    }

    ghost function Pop(): Ring<T>
      requires Valid() && Size() > 0
    {
      Ring(slots, Slot(head, 1, |slots|), tail)
    }

    /** Pushing the items one by one until the ring is full. */
    ghost function PushAll(items: seq<T>): Ring<T>
      requires Valid()
      decreases |items|
    {
      if items == [] || Full() then this else Push(items[0]).PushAll(items[1..])
    }
  }

  lemma PushIsEnqueue<T>(r: Ring<T>, x: T)
    requires r.Valid() && !r.Full()
    ensures r.Push(x).Valid() && r.Push(x).Live() == r.Live() + [x]
    ensures r.Push(x).Size() == r.Size() + 1
  {
  }

  lemma PopIsDequeue<T>(r: Ring<T>)
    requires r.Valid() && r.Size() > 0
    ensures r.Pop().Valid() && r.Live() == [r.slots[r.head]] + r.Pop().Live()
  {
  }

  lemma TakeCons<T>(items: seq<T>, n: nat)
    requires 0 < n <= |items|
    ensures items[..n] == [items[0]] + items[1..][..n - 1] && items[..n][1..] == items[1..][..n - 1]
  {
  }

  /** Repeated pushes accept a prefix of exactly as many items as there are free slots. */
  lemma {:induction false} PushAllAccepts<T>(r: Ring<T>, items: seq<T>)
    requires r.Valid()
    ensures var n := Min(|items|, |r.slots| - 1 - r.Size());
      && r.PushAll(items).Valid()
      && r.PushAll(items).Live() == r.Live() + items[..n]
      && r.PushAll(items) == r.PushAll(items[..n])
    decreases |items|
  {
    var n := Min(|items|, |r.slots| - 1 - r.Size());
    if items != [] && !r.Full() {
      PushIsEnqueue(r, items[0]);
      PushAllAccepts(r.Push(items[0]), items[1..]);
      TakeCons(items, n);
      assert r.Live() + ([items[0]] + items[1..][..n - 1]) == r.Live() + [items[0]] + items[1..][..n - 1];
    } else {
      assert items[..n] == [];
      assert r.Live() + [] == r.Live();
    }
  }

  /** One more push at the end. */
  lemma {:induction false} PushAllSnoc<T>(r: Ring<T>, items: seq<T>, x: T)
    requires r.Valid() && |items| < |r.slots| - 1 - r.Size()
    ensures r.PushAll(items).Valid() && !r.PushAll(items).Full()
    ensures r.PushAll(items + [x]) == r.PushAll(items).Push(x)
    decreases |items|
  {
    if items == [] {
      assert ([] + [x])[1..] == [] && [] + [x] == [x];
      assert r.PushAll([x]) == r.Push(x).PushAll([]);
    } else {
      PushIsEnqueue(r, items[0]);
      PushAllSnoc(r.Push(items[0]), items[1..], x);
      assert (items + [x])[1..] == items[1..] + [x];
    }
  }

  lemma SnocPrefix<T>(r: Ring<T>, items: seq<T>, n: nat)
    requires r.Valid() && 0 < n <= |items| && n - 1 < |r.slots| - 1 - r.Size()
    ensures r.PushAll(items[..n - 1]).Valid() && !r.PushAll(items[..n - 1]).Full()
    ensures r.PushAll(items[..n]) == r.PushAll(items[..n - 1]).Push(items[n - 1])
  {
    PushAllSnoc(r, items[..n - 1], items[n - 1]);
    assert items[..n - 1] + [items[n - 1]] == items[..n];
  }

  class SpscQueue<T(0)> {
    ghost const exp: nat
    const capacity: nat
    const mask: nat
    const buffer: array<T>
    var head: nat
    var tail: nat
    var shutdown: bool

    ghost predicate Valid()
      reads this, buffer
    {
      && 1 <= exp <= 63 && capacity == Pow2(exp) && mask == capacity - 1 && buffer.Length == capacity
      && head < capacity && tail < capacity && capacity >= 2
    }

    ghost function View(): Ring<T>
      reads this, buffer
    {
      Ring(buffer[..], head, tail)
    }

    constructor (requested: nat)
      requires requested <= WORD / 2
      ensures Valid() && fresh(buffer) && View().Live() == [] && !shutdown
      ensures capacity >= requested && capacity >= 2
      ensures forall k: nat :: Pow2(k) >= requested && Pow2(k) >= 2 ==> capacity <= Pow2(k)
    {
      var n := NormalizeCapacity(requested);
      ghost var k: nat :| 1 <= k <= 63 && n == Pow2(k);
      exp := k;
      capacity := n;
      mask := n - 1;
      buffer := new T[n];
      head := 0;
      tail := 0;
      shutdown := false;
    }

    /** False exactly when the ring is full; otherwise the item is the newest one. */
    method Push(item: T) returns (ok: bool)
      requires Valid()
      modifies this`tail, buffer
      ensures Valid() && ok == !old(View().Full())
      ensures View() == if ok then old(View().Push(item)) else old(View())
      ensures View().Live() == if ok then old(View().Live()) + [item] else old(View().Live())
    {
      ghost var was := View();
      MaskedIndex(tail, 1, exp);
      var next := And(AddWrap(tail, 1), mask);
      if next == head {
        return false;
      }
      PushIsEnqueue(was, item);
      buffer[tail] := item;
      tail := next;
      assert View() == was.Push(item);
      return true;
    }

    /** Accepts min(n, free) items and leaves exactly the ring that pushing them one by one
        until the first failure leaves, slot for slot. */
    method PushBulk(items: seq<T>) returns (pushed: nat)
      requires Valid()
      modifies this`tail, buffer
      ensures Valid() && pushed == Min(|items|, capacity - 1 - old(View().Size()))
      ensures View() == old(View().PushAll(items))
      ensures View().Live() == old(View().Live()) + items[..pushed]
    {
      ghost var was := View();
      PushAllAccepts(was, items);
      var n := |items|;
      if n == 0 { return 0; }
      MaskedDistance(head, tail, exp);
      var size := And(SubWrap(tail, head), mask);
      var free := mask - size;
      if free == 0 { return 0; }
      var toPush := if n <= free then n else free;
      CopyItems(items[..toPush]);
      MaskedIndex(tail, toPush, exp);
      tail := And(AddWrap(tail, toPush), mask);
      pushed := toPush;
    }

    /** The copy loop: the slots are written, nothing is published yet. */
    method CopyItems(items: seq<T>)
      requires Valid() && |items| <= capacity - 1 - View().Size()
      modifies buffer
      ensures Ring(buffer[..], head, Slot(tail, |items|, capacity)) == old(View().PushAll(items))
    {
      ghost var was := View();
      var i := 0;
      while i < |items|
        invariant 0 <= i <= |items|
        invariant Ring(buffer[..], head, Slot(tail, i, capacity)) == was.PushAll(items[..i])
      {
        MaskedIndex(tail, i, exp);
        var idx := And(AddWrap(tail, i), mask);
        SnocPrefix(was, items, i + 1);
        buffer[idx] := items[i];
        i := i + 1;
      }
      assert items[..i] == items;
    }

    /** None exactly when the ring is empty; otherwise the oldest item. */
    method Pop() returns (r: Option<T>)
      requires Valid()
      modifies this`head
      ensures Valid() && (r.None? <==> old(View().Live()) == [])
      ensures r.None? ==> View() == old(View())
      ensures r.Some? ==> View() == old(View().Pop()) && old(View().Live()) == [r.value] + View().Live()
    {
      ghost var was := View();
      if head == tail {
        assert was.Live() == [];
        return None;
      }
      PopIsDequeue(was);
      r := Some(buffer[head]);
      MaskedIndex(head, 1, exp);
      head := And(AddWrap(head, 1), mask);
    }

    method Empty() returns (r: bool)
      requires Valid()
      ensures r <==> View().Live() == []
    {
      r := head == tail;
      assert |View().Live()| == View().Size();
    }

    method NotifyShutdown()
      modifies this`shutdown
      ensures shutdown
    {
      shutdown := true;
    }

    method IsShutdown() returns (r: bool)
      ensures r == shutdown
    {
      r := shutdown;
    }

    /** On a fixed state: the number of live items, which is push_bulk's occupancy. */
    method ApproxSize() returns (n: nat)
      requires Valid()
      ensures n == |View().Live()| <= capacity - 1
      ensures head < WORD && tail < WORD && n == And(SubWrap(tail, head), mask)
    {
      MaskedDistance(head, tail, exp);
      var h := head;
      var t := tail;
      n := if t >= h then t - h else capacity - (h - t);
    }
  }
}
