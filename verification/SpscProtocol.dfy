/** The ring under concurrency (cpp/include/spsc_queue.h): one producer running push or push_bulk
    and one consumer running pop, interleaved at every load, slot access and index store.
    Steps are sequentially consistent. Each side acts on the copies it loaded earlier. */
module SpscProtocol {
  import opened Prelude
  import opened RingArith
  import opened SpscQueue

  /** Where the producer is; the fields are the locals it has loaded so far. */
  datatype Producer<T> =
    | Idle
    | PushTail(item: T, tail: nat)                                // own tail loaded
    | PushReady(item: T, tail: nat)                               // head loaded, not full
    | PushWritten(item: T, tail: nat)                             // slot written, not published
    | BulkHead(items: seq<T>, head: nat)                          // head loaded
    | Copying(items: seq<T>, tail: nat, count: nat, i: nat)       // i of count slots written

  datatype Consumer<T> =
    | Resting
    | PopHead(head: nat)                                          // own head loaded
    | PopReady(head: nat)                                         // tail loaded, not empty
    | PopRead(head: nat, out: T)                                  // slot read, not released

  /** published and popped record the items whose index store has happened, in order. */
  datatype State<T> = State(ring: Ring<T>, producer: Producer<T>, consumer: Consumer<T>,
                            published: seq<T>, popped: seq<T>)

  datatype Action<T> =
    | BeginPush(item: T) | CheckFull | WriteSlot | PublishPush
    | BeginBulk(items: seq<T>) | LoadTail | CopySlot | PublishBulk
    | BeginPop | CheckEmpty | ReadSlot | PublishPop

  ghost predicate InBounds<T>(s: State<T>) {
    var cap := |s.ring.slots|;
    && s.ring.Valid()
    && (match s.producer
        case Idle => true
        case PushTail(_, t) => t < cap
        case PushReady(_, t) => t < cap
        case PushWritten(_, t) => t < cap
        case BulkHead(_, h) => h < cap
        case Copying(items, t, count, i) => t < cap && i <= count <= |items| && count < cap)
    && (match s.consumer
        case Resting => true
        case PopHead(h) => h < cap
        case PopReady(h) => h < cap
        case PopRead(h, _) => h < cap)
  }

  /** One step. An action that does not fit the program counters changes nothing. */
  ghost function Next<T>(s: State<T>, a: Action<T>): (r: State<T>)
    requires InBounds(s)
    ensures InBounds(r)
  {
    var ring, cap := s.ring, |s.ring.slots|;
    match (a, s.producer, s.consumer)
    case (BeginPush(x), Idle, _) => s.(producer := PushTail(x, ring.tail))
    case (CheckFull, PushTail(x, t), _) =>
      s.(producer := if Slot(t, 1, cap) == ring.head then Idle else PushReady(x, t))
    case (WriteSlot, PushReady(x, t), _) =>
      s.(ring := Ring(ring.slots[t := x], ring.head, ring.tail), producer := PushWritten(x, t))
    case (PublishPush, PushWritten(x, t), _) =>
      s.(ring := Ring(ring.slots, ring.head, Slot(t, 1, cap)), producer := Idle, published := s.published + [x])
    case (BeginBulk(items), Idle, _) =>
      if items == [] then s else s.(producer := BulkHead(items, ring.head))
    case (LoadTail, BulkHead(items, h), _) =>
      var free := cap - 1 - Dist(h, ring.tail, cap);
      s.(producer := if free == 0 then Idle else Copying(items, ring.tail, Min(|items|, free), 0))
    case (CopySlot, Copying(items, t, count, i), _) =>
      if i == count then s
      else s.(ring := Ring(ring.slots[Slot(t, i, cap) := items[i]], ring.head, ring.tail),
              producer := Copying(items, t, count, i + 1))
    case (PublishBulk, Copying(items, t, count, i), _) =>
      if i < count then s
      else s.(ring := Ring(ring.slots, ring.head, Slot(t, count, cap)), producer := Idle,
              published := s.published + items[..count])
    case (BeginPop, _, Resting) => s.(consumer := PopHead(ring.head))
    case (CheckEmpty, _, PopHead(h)) => s.(consumer := if h == ring.tail then Resting else PopReady(h))
    case (ReadSlot, _, PopReady(h)) => s.(consumer := PopRead(h, ring.slots[h]))
    case (PublishPop, _, PopRead(h, out)) =>
      s.(ring := Ring(ring.slots, Slot(h, 1, cap), ring.tail), consumer := Resting, popped := s.popped + [out])
    case _ => s
  }

  ghost function Exec<T>(s: State<T>, actions: seq<Action<T>>): (r: State<T>)
    requires InBounds(s)
    ensures InBounds(r)
    decreases |actions|
  {
    if actions == [] then s else Exec(Next(s, actions[0]), actions[1..])
  }

  ghost predicate Init<T>(s: State<T>) {
    && s.ring.Valid() && s.ring.head == s.ring.tail
    && s.producer.Idle? && s.consumer.Resting? && s.published == [] && s.popped == []
  }

  // ---- the invariant --------------------------------------------------------------

  ghost predicate ProducerInv<T>(s: State<T>)
    requires s.ring.Valid()
  {
    var ring, cap := s.ring, |s.ring.slots|;
    match s.producer
    case Idle => true
    case PushTail(_, t) => t == ring.tail
    case PushReady(_, t) => t == ring.tail && !ring.Full()
    case PushWritten(x, t) => t == ring.tail && !ring.Full() && ring.slots[t] == x
    case BulkHead(_, h) => h < cap && Dist(h, ring.tail, cap) >= ring.Size()
    case Copying(items, t, count, i) =>
      && t == ring.tail && i <= count <= |items| && ring.Size() + count < cap
      && forall j | 0 <= j < i :: ring.slots[Slot(t, j, cap)] == items[j]
  }

  ghost predicate ConsumerInv<T>(s: State<T>)
    requires s.ring.Valid()
  {
    match s.consumer
    case Resting => true
    case PopHead(h) => h == s.ring.head
    case PopReady(h) => h == s.ring.head && s.ring.Size() > 0
    case PopRead(h, out) => h == s.ring.head && s.ring.Size() > 0 && s.ring.slots[h] == out
  }

  ghost predicate Inv<T>(s: State<T>) {
    && s.ring.Valid()
    && s.published == s.popped + s.ring.Live()
    && ProducerInv(s) && ConsumerInv(s)
  }

  /** Writing beyond the published items leaves them alone. */
  lemma WriteFree<T>(r: Ring<T>, j: nat, x: T)
    requires r.Valid() && r.Size() + j < |r.slots|
    ensures var w := Ring(r.slots[Slot(r.tail, j, |r.slots|) := x], r.head, r.tail);
      w.Valid() && w.Size() == r.Size() && w.Live() == r.Live()
    ensures r.Size() > 0 ==> r.head != Slot(r.tail, j, |r.slots|)
  {
  }

  /** Moving tail over written slots appends their contents to the live items. */
  lemma PublishAppends<T>(r: Ring<T>, xs: seq<T>)
    requires r.Valid() && r.Size() + |xs| < |r.slots|
    requires forall j | 0 <= j < |xs| :: r.slots[Slot(r.tail, j, |r.slots|)] == xs[j]
    ensures var p := Ring(r.slots, r.head, Slot(r.tail, |xs|, |r.slots|));
      p.Valid() && p.Size() == r.Size() + |xs| && p.Live() == r.Live() + xs
  {
    var cap := |r.slots|;
    var p := Ring(r.slots, r.head, Slot(r.tail, |xs|, cap));
    forall i | 0 <= i < p.Size() ensures p.Live()[i] == (r.Live() + xs)[i] {
      if i >= r.Size() {
        assert Slot(r.head, i, cap) == Slot(r.tail, i - r.Size(), cap);
      }
    }
  }

  lemma PushSteps<T>(s: State<T>, a: Action<T>)
    requires Inv(s) && InBounds(s) && (a.BeginPush? || a.CheckFull? || a.WriteSlot? || a.PublishPush?)
    ensures Inv(Next(s, a))
  {
    match (a, s.producer)
    case (WriteSlot, PushReady(x, t)) =>
      WriteFree(s.ring, 0, x);
    case (PublishPush, PushWritten(x, t)) =>
      PublishStep(s, [x]);
    case _ =>
  }

  lemma BulkSteps<T>(s: State<T>, a: Action<T>)
    requires Inv(s) && InBounds(s) && (a.BeginBulk? || a.LoadTail? || a.CopySlot? || a.PublishBulk?)
    ensures Inv(Next(s, a))
  {
    match (a, s.producer)
    case (CopySlot, Copying(items, t, count, i)) =>
      if i < count { WriteFree(s.ring, i, items[i]); }
    case (PublishBulk, Copying(items, t, count, i)) =>
      if i == count { PublishStep(s, items[..count]); }
    case _ =>
  }

  /** The histories stay in step with the ring when tail moves over the written slots. */
  lemma PublishStep<T>(s: State<T>, xs: seq<T>)
    requires Inv(s) && s.ring.Size() + |xs| < |s.ring.slots|
    requires forall j | 0 <= j < |xs| :: s.ring.slots[Slot(s.ring.tail, j, |s.ring.slots|)] == xs[j]
    ensures var p := Ring(s.ring.slots, s.ring.head, Slot(s.ring.tail, |xs|, |s.ring.slots|));
      p.Valid() && p.Size() >= s.ring.Size() && s.published + xs == s.popped + p.Live()
  {
    PublishAppends(s.ring, xs);
    assert s.popped + (s.ring.Live() + xs) == s.published + xs;
  }

  lemma PopSteps<T>(s: State<T>, a: Action<T>)
    requires Inv(s) && InBounds(s) && (a.BeginPop? || a.CheckEmpty? || a.ReadSlot? || a.PublishPop?)
    ensures Inv(Next(s, a))
  {
    match (a, s.consumer)
    case (PublishPop, PopRead(h, out)) =>
      PopIsDequeue(s.ring);
      var later := s.ring.Pop().Live();
      assert s.popped + ([out] + later) == s.popped + [out] + later;
    case _ =>
  }

  lemma InvStep<T>(s: State<T>, a: Action<T>)
    requires Inv(s) && InBounds(s)
    ensures Inv(Next(s, a))
  {
    if a.BeginPush? || a.CheckFull? || a.WriteSlot? || a.PublishPush? {
      PushSteps(s, a);
    } else if a.BeginBulk? || a.LoadTail? || a.CopySlot? || a.PublishBulk? {
      BulkSteps(s, a);
    } else {
      PopSteps(s, a);
    }
  }

  lemma {:induction false} InvExec<T>(s: State<T>, actions: seq<Action<T>>)
    requires Inv(s) && InBounds(s)
    ensures Inv(Exec(s, actions))
    decreases |actions|
  {
    if actions != [] {
      InvStep(s, actions[0]);
      InvExec(Next(s, actions[0]), actions[1..]);
    }
  }

  lemma InitInv<T>(s: State<T>)
    requires Init(s)
    ensures Inv(s) && InBounds(s)
  {
    assert s.ring.Live() == [];
  }

  // ---- what holds in every interleaving -------------------------------------------

  /** First in, first out: nothing is lost, duplicated, reordered or overwritten. */
  lemma {:induction false} Fifo<T>(s: State<T>, actions: seq<Action<T>>)
    requires Init(s)
    ensures var r := Exec(s, actions);
      r.published == r.popped + r.ring.Live() && r.ring.Size() < |r.ring.slots|
  {
    InitInv(s);
    InvExec(s, actions);
  }

  /** The slots that a push or push_bulk in progress may still write. */
  ghost function MayWrite<T>(s: State<T>): set<nat>
    requires InBounds(s)
  {
    var cap := |s.ring.slots|;
    match s.producer
    case Idle => {}
    case PushTail(_, t) => {t}
    case PushReady(_, t) => {t}
    case PushWritten(_, _) => {}
    case BulkHead(items, h) =>
      set j | 0 <= j < Min(|items|, cap - 1 - Dist(h, s.ring.tail, cap)) :: Slot(s.ring.tail, j, cap)
    case Copying(_, t, count, i) => set j | i <= j < count :: Slot(t, j, cap)
  }

  /** The slot that a pop in progress reads. */
  ghost function MayRead<T>(s: State<T>): set<nat> {
    match s.consumer
    case PopReady(h) => {h}
    case _ => {}
  }

  ghost function LiveSlots<T>(r: Ring<T>): set<nat>
    requires r.Valid()
  {
    set i | 0 <= i < r.Size() :: Slot(r.head, i, |r.slots|)
  }

  /** In every reachable state the producer's slots are disjoint from the consumer's slot and
      from every published unread slot. */
  lemma {:induction false} SlotsAreDisjoint<T>(s: State<T>, actions: seq<Action<T>>)
    requires Init(s)
    ensures var r := Exec(s, actions);
      MayWrite(r) !! MayRead(r) && MayWrite(r) !! LiveSlots(r.ring)
  {
    InitInv(s);
    InvExec(s, actions);
    DisjointFromInv(Exec(s, actions));
  }

  lemma DisjointFromInv<T>(r: State<T>)
    requires Inv(r) && InBounds(r)
    ensures MayWrite(r) !! MayRead(r) && MayWrite(r) !! LiveSlots(r.ring)
  {
    var cap := |r.ring.slots|;
    assert r.ring.Size() > 0 ==> Slot(r.ring.head, 0, cap) in LiveSlots(r.ring);
    forall w | w in MayWrite(r) ensures w !in LiveSlots(r.ring) {
      forall i | 0 <= i < r.ring.Size() ensures Slot(r.ring.head, i, cap) != w {
      }
    }
  }

  /** A step of a bounded queue: it leaves the queue as it is, appends items that fit, or removes
      the oldest item and delivers it. */
  ghost predicate QueueStep<T>(s: State<T>, r: State<T>)
    requires s.ring.Valid() && r.ring.Valid()
  {
    var q, q' := s.ring.Live(), r.ring.Live();
    || (q' == q && r.published == s.published && r.popped == s.popped)
    || (|q'| < |s.ring.slots| && q <= q' && r.popped == s.popped && r.published == s.published + q'[|q|..])
    || (q != [] && q' == q[1..] && r.published == s.published && r.popped == s.popped + [q[0]])
  }

  lemma PushIsQueueStep<T>(s: State<T>, a: Action<T>)
    requires Inv(s) && InBounds(s) && (a.BeginPush? || a.CheckFull? || a.WriteSlot? || a.PublishPush?)
    ensures QueueStep(s, Next(s, a))
  {
    match (a, s.producer)
    case (WriteSlot, PushReady(x, t)) => WriteFree(s.ring, 0, x);
    case (PublishPush, PushWritten(x, t)) => PublishAppends(s.ring, [x]);
    case _ =>
  }

  lemma BulkIsQueueStep<T>(s: State<T>, a: Action<T>)
    requires Inv(s) && InBounds(s) && (a.BeginBulk? || a.LoadTail? || a.CopySlot? || a.PublishBulk?)
    ensures QueueStep(s, Next(s, a))
  {
    match (a, s.producer)
    case (CopySlot, Copying(items, t, count, i)) =>
      if i < count { WriteFree(s.ring, i, items[i]); }
    case (PublishBulk, Copying(items, t, count, i)) =>
      if i == count { PublishAppends(s.ring, items[..count]); }
    case _ =>
  }

  lemma PopIsQueueStep<T>(s: State<T>, a: Action<T>)
    requires Inv(s) && InBounds(s) && (a.BeginPop? || a.CheckEmpty? || a.ReadSlot? || a.PublishPop?)
    ensures QueueStep(s, Next(s, a))
  {
    match (a, s.consumer)
    case (PublishPop, PopRead(h, out)) => PopIsDequeue(s.ring);
    case _ =>
  }

  /** In every reachable state, every step refines the bounded queue. */
  lemma {:induction false} StepRefinesQueue<T>(s: State<T>, actions: seq<Action<T>>, a: Action<T>)
    requires Init(s)
    ensures QueueStep(Exec(s, actions), Exec(s, actions + [a]))
  {
    InitInv(s);
    InvExec(s, actions);
    var r := Exec(s, actions);
    ExecSnoc(s, actions, a);
    if a.BeginPush? || a.CheckFull? || a.WriteSlot? || a.PublishPush? {
      PushIsQueueStep(r, a);
    } else if a.BeginBulk? || a.LoadTail? || a.CopySlot? || a.PublishBulk? {
      BulkIsQueueStep(r, a);
    } else {
      PopIsQueueStep(r, a);
    }
  }

  lemma {:induction false} ExecSnoc<T>(s: State<T>, actions: seq<Action<T>>, a: Action<T>)
    requires InBounds(s)
    ensures Exec(s, actions + [a]) == Next(Exec(s, actions), a)
    decreases |actions|
  {
    if actions == [] {
      assert [] + [a] == [a] && [a][1..] == [];
      assert Exec(s, [a]) == Exec(Next(s, a), []);
    } else {
      assert (actions + [a])[1..] == actions[1..] + [a];
      ExecSnoc(Next(s, actions[0]), actions[1..], a);
    }
  }

  /** A push gives up only at an instant when the ring is full, a pop only when it is empty, and a
      bulk push that starts copying takes min(n, free) items, where free is at most the space left now
      and is all of it when the head it loaded is still current. */
  lemma RefusalsAreHonest<T>(s: State<T>)
    requires Inv(s) && InBounds(s)
    ensures s.producer.PushTail? ==> (Next(s, CheckFull).producer.Idle? <==> s.ring.Full())
    ensures s.consumer.PopHead? ==> (Next(s, CheckEmpty).consumer.Resting? <==> s.ring.Live() == [])
    ensures s.producer.BulkHead? ==>
      var space := |s.ring.slots| - 1 - s.ring.Size();
      var p := Next(s, LoadTail).producer;
      && (p.Copying? ==> 0 < p.count <= Min(|s.producer.items|, space) || s.producer.items == [])
      && (s.producer.head == s.ring.head && s.producer.items != [] ==>
            if space == 0 then p.Idle? else p.Copying? && p.count == Min(|s.producer.items|, space))
  {
    assert |s.ring.Live()| == s.ring.Size();
  }

  /** Between loading head and loading tail the producer's own part stands still, whatever the
      consumer does. */
  lemma {:induction false} BulkWaits<T>(s: State<T>, actions: seq<Action<T>>)
    requires InBounds(s) && s.producer.BulkHead? && forall a | a in actions :: !a.LoadTail?
    ensures var r := Exec(s, actions);
      r.producer == s.producer && r.ring.tail == s.ring.tail && |r.ring.slots| == |s.ring.slots|
    decreases |actions|
  {
    if actions != [] {
      WaitStep(s, actions[0]);
      BulkWaits(Next(s, actions[0]), actions[1..]);
    }
  }

  lemma WaitStep<T>(s: State<T>, a: Action<T>)
    requires InBounds(s) && s.producer.BulkHead? && !a.LoadTail?
    ensures var r := Next(s, a);
      r.producer == s.producer && r.ring.tail == s.ring.tail && |r.ring.slots| == |s.ring.slots|
  {
  }

  /** A bulk push takes exactly what was free at the instant it loaded head, however much the consumer
      frees before it loads tail: it gives up only when the ring was full at that instant, and
      otherwise sets out to copy min(n, free) items. */
  lemma {:induction false} BulkTakesWhatWasFree<T>(s: State<T>, items: seq<T>, between: seq<Action<T>>)
    requires Inv(s) && InBounds(s) && s.producer.Idle? && items != []
    requires forall a | a in between :: !a.LoadTail?
    ensures var p := Next(Exec(Next(s, BeginBulk(items)), between), LoadTail).producer;
      var free := |s.ring.slots| - 1 - s.ring.Size();
      && (p.Idle? <==> s.ring.Full())
      && (!s.ring.Full() ==> p == Copying(items, s.ring.tail, Min(|items|, free), 0))
  {
    var loaded := Next(s, BeginBulk(items));
    assert loaded.producer == BulkHead(items, s.ring.head);
    BulkWaits(loaded, between);
  }

  // ---- calls among the other side's steps -----------------------------------------

  predicate IsPopStep<T>(a: Action<T>) { a.BeginPop? || a.CheckEmpty? || a.ReadSlot? || a.PublishPop? }

  /** Whatever the producer does, the consumer keeps its place and the live items only grow behind. */
  ghost predicate ConsumerKept<T>(s: State<T>, r: State<T>)
    requires s.ring.Valid() && r.ring.Valid()
  {
    && r.consumer == s.consumer && r.popped == s.popped && r.ring.head == s.ring.head
    && |r.ring.slots| == |s.ring.slots| && s.ring.Live() <= r.ring.Live()
  }

  lemma PushStepKeepsConsumer<T>(s: State<T>, a: Action<T>)
    requires InBounds(s) && !IsPopStep(a)
    ensures var r := Next(s, a);
      && r.consumer == s.consumer && r.popped == s.popped && r.ring.head == s.ring.head
      && |r.ring.slots| == |s.ring.slots| && s.published <= r.published
  {
  }

  lemma {:induction false} ProducerRuns<T>(s: State<T>, actions: seq<Action<T>>)
    requires Inv(s) && InBounds(s) && forall a | a in actions :: !IsPopStep(a)
    ensures Inv(Exec(s, actions)) && ConsumerKept(s, Exec(s, actions))
    decreases |actions|
  {
    if actions != [] {
      var m := Next(s, actions[0]);
      InvStep(s, actions[0]);
      PushStepKeepsConsumer(s, actions[0]);
      GrowsBehind(s, m);
      ProducerRuns(m, actions[1..]);
    }
  }

  lemma GrowsBehind<T>(s: State<T>, r: State<T>)
    requires Inv(s) && Inv(r) && r.popped == s.popped && s.published <= r.published
    ensures s.ring.Live() <= r.ring.Live()
  {
    var n := |s.popped|;
    assert s.published[n..] == s.ring.Live() && r.published[n..] == r.ring.Live();
  }

  lemma HeadIsOldest<T>(r: Ring<T>)
    requires r.Valid()
    ensures r.Size() > 0 <==> r.Live() != []
    ensures r.Live() != [] ==> r.Live()[0] == r.slots[r.head]
  {
    assert |r.Live()| == r.Size();
  }

  /** A pop, whatever the producer does between its steps: found empty exactly when the ring is empty
      at the instant it looks at tail, and otherwise it delivers the item that is the oldest then. */
  lemma {:induction false} PopDelivers<T>(s: State<T>, before: seq<Action<T>>, mid: seq<Action<T>>, late: seq<Action<T>>)
    requires Inv(s) && InBounds(s) && s.consumer.Resting?
    requires forall a | a in before || a in mid || a in late :: !IsPopStep(a)
    ensures var looks := Exec(Next(s, BeginPop), before);
      var decided := Next(looks, CheckEmpty);
      var r := Next(Exec(Next(Exec(decided, mid), ReadSlot), late), PublishPop);
      && (decided.consumer.Resting? <==> looks.ring.Live() == [])
      && (looks.ring.Live() == [] ==> decided.popped == s.popped && decided.ring == looks.ring)
      && (looks.ring.Live() != [] ==>
            r.consumer.Resting? && r.popped == s.popped + [looks.ring.Live()[0]]
            && r.ring.head == Slot(s.ring.head, 1, |s.ring.slots|))
  {
    InvStep(s, BeginPop);
    var begun := Next(s, BeginPop);
    assert begun.ring == s.ring;
    ProducerRuns(begun, before);
    var looks := Exec(begun, before);
    HeadIsOldest(looks.ring);
    InvStep(looks, CheckEmpty);
    if looks.ring.Live() != [] {
      var ready := Next(looks, CheckEmpty);
      assert ready.consumer == PopReady(s.ring.head) && ready.ring == looks.ring && ready.popped == s.popped;
      ReadyDelivers(ready, mid, late);
    }
  }

  /** A pop that has seen an item delivers the oldest one. */
  lemma {:induction false} ReadyDelivers<T>(s: State<T>, mid: seq<Action<T>>, late: seq<Action<T>>)
    requires Inv(s) && InBounds(s) && s.consumer.PopReady?
    requires forall a | a in mid || a in late :: !IsPopStep(a)
    ensures s.ring.Live() != []
    ensures var r := Next(Exec(Next(Exec(s, mid), ReadSlot), late), PublishPop);
      && r.consumer.Resting? && r.popped == s.popped + [s.ring.Live()[0]]
      && r.ring.head == Slot(s.ring.head, 1, |s.ring.slots|)
  {
    HeadIsOldest(s.ring);
    ProducerRuns(s, mid);
    var m := Exec(s, mid);
    HeadIsOldest(m.ring);
    InvStep(m, ReadSlot);
    var read := Next(m, ReadSlot);
    assert read.consumer == PopRead(s.ring.head, s.ring.Live()[0]) && read.ring == m.ring;
    ProducerRuns(read, late);
  }

  /** Whatever the consumer does, the producer keeps its place. */
  lemma PopStepKeepsProducer<T>(s: State<T>, a: Action<T>)
    requires InBounds(s) && IsPopStep(a)
    ensures var r := Next(s, a);
      && r.producer == s.producer && r.published == s.published && r.ring.tail == s.ring.tail
      && r.ring.slots == s.ring.slots
  {
  }

  lemma {:induction false} ConsumerRuns<T>(s: State<T>, actions: seq<Action<T>>)
    requires Inv(s) && InBounds(s) && forall a | a in actions :: IsPopStep(a)
    ensures var r := Exec(s, actions);
      && Inv(r) && r.producer == s.producer && r.published == s.published && r.ring.tail == s.ring.tail
      && r.ring.slots == s.ring.slots
    decreases |actions|
  {
    if actions != [] {
      InvStep(s, actions[0]);
      PopStepKeepsProducer(s, actions[0]);
      ConsumerRuns(Next(s, actions[0]), actions[1..]);
    }
  }

  /** A push, whatever the consumer does between its steps: refused exactly when the ring is full at
      the instant it looks at head, and otherwise its item is published. */
  lemma {:induction false} PushDelivers<T>(s: State<T>, x: T, before: seq<Action<T>>, mid: seq<Action<T>>, late: seq<Action<T>>)
    requires Inv(s) && InBounds(s) && s.producer.Idle?
    requires forall a | a in before || a in mid || a in late :: IsPopStep(a)
    ensures var looks := Exec(Next(s, BeginPush(x)), before);
      var decided := Next(looks, CheckFull);
      var r := Next(Exec(Next(Exec(decided, mid), WriteSlot), late), PublishPush);
      && (decided.producer.Idle? <==> looks.ring.Full()) && decided.published == s.published
      && (!looks.ring.Full() ==> r.producer.Idle? && r.published == s.published + [x])
  {
    InvStep(s, BeginPush(x));
    ConsumerRuns(Next(s, BeginPush(x)), before);
    var looks := Exec(Next(s, BeginPush(x)), before);
    RefusalsAreHonest(looks);
    InvStep(looks, CheckFull);
    if !looks.ring.Full() {
      var ready := Next(looks, CheckFull);
      assert ready.producer == PushReady(x, s.ring.tail);
      ConsumerRuns(ready, mid);
      var m := Exec(ready, mid);
      InvStep(m, WriteSlot);
      var written := Next(m, WriteSlot);
      assert written.producer == PushWritten(x, s.ring.tail) && written.published == s.published;
      ConsumerRuns(written, late);
    }
  }

  ghost predicate AllPops<T>(actions: seq<Action<T>>) { forall a | a in actions :: IsPopStep(a) }

  /** Copying one slot after another, with consumer steps before each. */
  ghost function CopyAmid<T>(s: State<T>, between: seq<seq<Action<T>>>): (r: State<T>)
    requires InBounds(s)
    ensures InBounds(r)
    decreases |between|
  {
    if between == [] then s
    else Next(Exec(CopyAmid(s, between[..|between| - 1]), between[|between| - 1]), CopySlot)
  }

  lemma {:induction false} CopiesAmid<T>(s: State<T>, between: seq<seq<Action<T>>>)
    requires Inv(s) && InBounds(s) && s.producer.Copying? && s.producer.i == 0 && |between| <= s.producer.count
    requires forall i | 0 <= i < |between| :: AllPops(between[i])
    ensures var p, r := s.producer, CopyAmid(s, between);
      Inv(r) && r.producer == Copying(p.items, p.tail, p.count, |between|) && r.published == s.published
    decreases |between|
  {
    if between != [] {
      var n := |between| - 1;
      CopiesAmid(s, between[..n]);
      var m := CopyAmid(s, between[..n]);
      assert AllPops(between[n]);
      ConsumerRuns(m, between[n]);
      InvStep(Exec(m, between[n]), CopySlot);
    }
  }

  /** A bulk push that sets out to copy count items publishes exactly those, whatever the consumer
      does between its steps. */
  lemma {:induction false} BulkDelivers<T>(s: State<T>, between: seq<seq<Action<T>>>, late: seq<Action<T>>)
    requires Inv(s) && InBounds(s) && s.producer.Copying? && s.producer.i == 0 && |between| == s.producer.count
    requires (forall i | 0 <= i < |between| :: AllPops(between[i])) && AllPops(late)
    ensures var r := Next(Exec(CopyAmid(s, between), late), PublishBulk);
      r.producer.Idle? && r.published == s.published + s.producer.items[..s.producer.count]
  {
    CopiesAmid(s, between);
    ConsumerRuns(CopyAmid(s, between), late);
  }

  /** Which slots a step touches: it writes none but those the producer may still write, and reads
      the one slot the consumer may read. */
  lemma {:induction false} StepTouches<T>(s: State<T>, a: Action<T>)
    requires InBounds(s) && Inv(s)
    ensures var r := Next(s, a);
      && |r.ring.slots| == |s.ring.slots|
      && (forall j | 0 <= j < |s.ring.slots| :: r.ring.slots[j] == s.ring.slots[j] || j in MayWrite(s))
      && (a.ReadSlot? && s.consumer.PopReady? ==>
            exists j: nat :: MayRead(s) == {j} && j < |s.ring.slots| && r.consumer == PopRead(j, s.ring.slots[j]))
  {
    if a.CopySlot? && s.producer.Copying? && s.producer.i < s.producer.count {
      assert Slot(s.producer.tail, s.producer.i, |s.ring.slots|) in MayWrite(s);
    }
  }

  // ---- undisturbed calls ----------------------------------------------------------

  /** A pop that nobody interrupts is the sequential pop. */
  lemma {:induction false} SoloPop<T>(s: State<T>)
    requires Inv(s) && InBounds(s) && s.consumer.Resting?
    ensures var r := Next(Next(Next(Next(s, BeginPop), CheckEmpty), ReadSlot), PublishPop);
      r == if s.ring.Live() == [] then s
           else s.(ring := s.ring.Pop(), popped := s.popped + [s.ring.slots[s.ring.head]])
  {
    HeadIsOldest(s.ring);
  }

  /** A push that nobody interrupts is the sequential push. */
  lemma SoloPush<T>(s: State<T>, x: T)
    requires Inv(s) && InBounds(s) && s.producer.Idle?
    ensures Next(Next(Next(Next(s, BeginPush(x)), CheckFull), WriteSlot), PublishPush).ring
            == if s.ring.Full() then s.ring else s.ring.Push(x)
  {
  }

  ghost function CopySteps<T>(s: State<T>, n: nat): (r: State<T>)
    requires InBounds(s)
    ensures InBounds(r)
  {
    if n == 0 then s else Next(CopySteps(s, n - 1), CopySlot)
  }

  lemma CopyOne<T>(s: State<T>)
    requires InBounds(s) && s.producer.Copying? && s.producer.i < s.producer.count
    ensures var p, r := s.producer, Next(s, CopySlot);
      && r.producer == Copying(p.items, p.tail, p.count, p.i + 1)
      && r.ring == Ring(s.ring.slots[Slot(p.tail, p.i, |s.ring.slots|) := p.items[p.i]], s.ring.head, s.ring.tail)
  {
  }

  /** The copying of an uninterrupted bulk push. */
  lemma {:induction false} SoloCopy<T>(s: State<T>, n: nat)
    requires Inv(s) && InBounds(s) && s.producer.Copying? && s.producer.i == 0
    requires n <= s.producer.count
    ensures var p, r := s.producer, CopySteps(s, n);
      && r.producer == Copying(p.items, p.tail, p.count, n)
      && Ring(r.ring.slots, r.ring.head, Slot(p.tail, n, |s.ring.slots|)) == s.ring.PushAll(p.items[..n])
      && r.ring.head == s.ring.head && r.ring.tail == s.ring.tail && |r.ring.slots| == |s.ring.slots|
  {
    if n > 0 {
      SoloCopy(s, n - 1);
      var q, p := CopySteps(s, n - 1), s.producer;
      CopyOne(q);
      SnocPrefix(s.ring, p.items, n);
      var pushed := s.ring.PushAll(p.items[..n - 1]);
      assert pushed == Ring(q.ring.slots, q.ring.head, Slot(p.tail, n - 1, |s.ring.slots|));
    }
  }

  lemma {:induction false} SoloFinish<T>(ready: State<T>)
    requires Inv(ready) && InBounds(ready) && ready.producer.Copying? && ready.producer.i == 0
    ensures var r := Next(CopySteps(ready, ready.producer.count), PublishBulk);
      r.producer.Idle? && r.ring == ready.ring.PushAll(ready.producer.items[..ready.producer.count])
  {
    SoloCopy(ready, ready.producer.count);
  }

  /** Loading head and tail undisturbed: a bulk push sets out to copy min(n, free) items, or gives
      up when that is none. */
  lemma SoloStart<T>(s: State<T>, items: seq<T>, n: nat)
    requires Inv(s) && InBounds(s) && s.producer.Idle?
    requires n == Min(|items|, |s.ring.slots| - 1 - s.ring.Size())
    ensures Next(Next(s, BeginBulk(items)), LoadTail)
            == if n == 0 then s else s.(producer := Copying(items, s.ring.tail, n, 0))
  {
  }

  /** A bulk push that nobody interrupts, from its call to its return: it leaves the ring that pushing
      the items one by one leaves. */
  lemma {:induction false} SoloBulk<T>(s: State<T>, items: seq<T>, n: nat)
    requires Inv(s) && InBounds(s) && s.producer.Idle?
    requires n == Min(|items|, |s.ring.slots| - 1 - s.ring.Size())
    ensures var r := Next(CopySteps(Next(Next(s, BeginBulk(items)), LoadTail), n), PublishBulk);
      r.producer.Idle? && r.ring == s.ring.PushAll(items)
  {
    SoloStart(s, items, n);
    PushAllAccepts(s.ring, items);
    if n > 0 {
      SoloFinish(s.(producer := Copying(items, s.ring.tail, n, 0)));
    } else {
      assert items[..0] == [];
    }
  }
}
