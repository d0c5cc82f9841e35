/** Particular runs of the receiver and consumer threads (cpp/src/udp_receiver.cpp): what comes in, a pop
    that reaches the book, a batch without disturbance, and the way to the shutdown-and-empty exit. */
module PipelineRuns {
  import opened Prelude
  import opened Events
  import opened SpscQueue
  import opened SpscProtocol
  import opened OrderBook
  import opened Pipeline

  // ---- what comes in --------------------------------------------------------------------

  ghost function Came(p: Pipe, m: Move): seq<Event> {
    if m.Batch? && p.producing.Receiving? then ParsedEvents(m.ds) else []
  }

  /** The events of the batches that the receiver takes up in a run, in order. */
  ghost function Arrivals(p: Pipe, moves: seq<Move>): seq<Event>
    requires InBounds(p.ring)
    decreases |moves|
  {
    if moves == [] then [] else Came(p, moves[0]) + Arrivals(After(p, moves[0]), moves[1..])
  }

  lemma StepReceives(p: Pipe, m: Move)
    requires InBounds(p.ring)
    ensures After(p, m).received == p.received + Came(p, m)
  {
    assert p.received + [] == p.received;
  }

  lemma Regroup(a: seq<Event>, b: seq<Event>, c: seq<Event>)
    ensures a + b + c == a + (b + c)
  {
  }

  /** Every well-formed datagram of every batch is received, in order, and nothing else is. */
  lemma {:induction false} ReceivedIsWhatArrived(p: Pipe, moves: seq<Move>)
    requires InBounds(p.ring)
    ensures RunPipe(p, moves).received == p.received + Arrivals(p, moves)
    decreases |moves|
  {
    if moves != [] {
      var next, rest := After(p, moves[0]), moves[1..];
      StepReceives(p, moves[0]);
      ReceivedIsWhatArrived(next, rest);
      Regroup(p.received, Came(p, moves[0]), Arrivals(next, rest));
    }
  }

  // ---- a pop that reaches the book --------------------------------------------------------

  predicate IsReceiverMove(m: Move) {
    m.Batch? || m.Push? || m.CountProcessed? || m.CountDropped? || m.NotifyShutdown? || m.SetStop?
  }

  /** Whatever the receiver does, the consumer keeps its place and its book. */
  ghost predicate ConsumerUnmoved(p: Pipe, r: Pipe)
    requires p.ring.ring.Valid() && r.ring.ring.Valid()
  {
    && r.consuming == p.consuming && r.books == p.books && r.applied == p.applied && ConsumerKept(p.ring, r.ring)
  }

  lemma RingStepKept(s: State<Event>, a: Action<Event>)
    requires Inv(s) && InBounds(s) && !IsPopStep(a)
    ensures ConsumerKept(s, Next(s, a))
  {
    InvStep(s, a);
    PushStepKeepsConsumer(s, a);
    GrowsBehind(s, Next(s, a));
  }

  lemma ReceiverMoveKept(p: Pipe, m: Move)
    requires PipeInv(p) && IsReceiverMove(m)
    ensures ConsumerUnmoved(p, After(p, m))
  {
    match m
    case Batch(ds) => RingStepKept(p.ring, BeginBulk(ParsedEvents(ds)));
    case Push(a) => if IsPushStep(a) { RingStepKept(p.ring, a); }
    case _ =>
  }

  lemma {:induction false} ReceiverRuns(p: Pipe, moves: seq<Move>)
    requires PipeInv(p) && forall m | m in moves :: IsReceiverMove(m)
    ensures PipeInv(RunPipe(p, moves)) && ConsumerUnmoved(p, RunPipe(p, moves))
    decreases |moves|
  {
    if moves != [] {
      ReceiverMoveKept(p, moves[0]);
      MoveKeepsInv(p, moves[0]);
      ReceiverRuns(After(p, moves[0]), moves[1..]);
    }
  }

  /** The consumer's single moves. */
  lemma BeginPopIs(p: Pipe)
    requires InBounds(p.ring) && p.consuming.Popping? && p.ring.consumer.Resting?
    ensures After(p, Pop(BeginPop)) == p.(ring := p.ring.(consumer := PopHead(p.ring.ring.head)))
  {
  }

  lemma CheckEmptyIs(p: Pipe)
    requires InBounds(p.ring) && p.consuming.Popping? && p.ring.consumer.PopHead?
    ensures After(p, Pop(CheckEmpty)) ==
      if p.ring.consumer.head == p.ring.ring.tail then
        p.(ring := p.ring.(consumer := Resting), consuming := AtShutdown)
      else p.(ring := p.ring.(consumer := PopReady(p.ring.consumer.head)))
  {
  }

  lemma ReadSlotIs(p: Pipe)
    requires InBounds(p.ring) && p.consuming.Popping? && p.ring.consumer.PopReady?
    ensures var h := p.ring.consumer.head;
      After(p, Pop(ReadSlot)) == p.(ring := p.ring.(consumer := PopRead(h, p.ring.ring.slots[h])))
  {
  }

  lemma PublishPopIs(p: Pipe)
    requires InBounds(p.ring) && p.consuming.Popping? && p.ring.consumer.PopRead?
    ensures var r := After(p, Pop(PublishPop));
      && r.consuming == Applying(p.ring.consumer.out) && r.ring.consumer.Resting?
      && r.books == p.books && r.applied == p.applied && r.shutdown == p.shutdown
      && r.ring.published == p.ring.published && r.ring.popped == p.ring.popped + [p.ring.consumer.out]
  {
  }

  lemma ApplyIs(p: Pipe)
    requires InBounds(p.ring) && p.consuming.Applying?
    ensures var ev := p.consuming.ev;
      After(p, Apply) == p.(books := Feed(p.books, ev), applied := p.applied + [ev], consuming := Popping)
  {
  }

  /** Reading and releasing the slot, with the receiver's moves in between. */
  ghost function FinishPop(p: Pipe, mid: seq<Move>, late: seq<Move>): (r: Pipe)
    requires InBounds(p.ring)
    ensures InBounds(r.ring)
  {
    After(RunPipe(After(RunPipe(p, mid), Pop(ReadSlot)), late), Pop(PublishPop))
  }

  /** A pop that has seen an item hands the oldest live event to the consumer, and the consumer feeds
      it to the book, whatever the receiver does meanwhile. */
  lemma {:induction false} PopReachesTheBook(p: Pipe, mid: seq<Move>, late: seq<Move>)
    requires PipeInv(p) && p.consuming.Popping? && p.ring.consumer.PopReady?
    requires forall m | m in mid || m in late :: IsReceiverMove(m)
    ensures p.ring.ring.Live() != []
    ensures var ev, r := p.ring.ring.Live()[0], FinishPop(p, mid, late);
      && r.consuming == Applying(ev) && r.applied == p.applied
      && After(r, Apply).applied == p.applied + [ev] && After(r, Apply).books == Feed(p.books, ev)
      && After(r, Apply).consuming.Popping? && After(r, Apply).ring.consumer.Resting?
  {
    HeadIsOldest(p.ring.ring);
    ReceiverRuns(p, mid);
    var a := RunPipe(p, mid);
    HeadIsOldest(a.ring.ring);
    ReadSlotIs(a);
    MoveKeepsInv(a, Pop(ReadSlot));
    var b := After(a, Pop(ReadSlot));
    ReceiverRuns(b, late);
    var c := RunPipe(b, late);
    PublishPopIs(c);
    ApplyIs(After(c, Pop(PublishPop)));
  }

  // ---- the shutdown-and-empty exit is reached -------------------------------------------

  lemma {:induction false} RunConcat(p: Pipe, a: seq<Move>, b: seq<Move>)
    requires InBounds(p.ring)
    ensures RunPipe(p, a + b) == RunPipe(RunPipe(p, a), b)
    decreases |a|
  {
    if a == [] {
      assert a + b == b;
    } else {
      assert (a + b)[1..] == a[1..] + b;
      RunConcat(After(p, a[0]), a[1..], b);
    }
  }

  lemma {:induction false} RunOne(p: Pipe, m: Move)
    requires InBounds(p.ring)
    ensures RunPipe(p, [m]) == After(p, m)
  {
    assert [m][1..] == [];
    assert RunPipe(After(p, m), []) == After(p, m);
  }

  lemma {:induction false} RunCons(p: Pipe, m: Move, rest: seq<Move>)
    requires InBounds(p.ring)
    ensures RunPipe(p, [m] + rest) == RunPipe(After(p, m), rest)
  {
    RunConcat(p, [m], rest);
    RunOne(p, m);
  }

  /** The consumer is about to pop. */
  ghost predicate AtPop(p: Pipe) { PipeInv(p) && p.consuming.Popping? && p.ring.consumer.Resting? }

  /** One turn of the inner loop, on a ring that holds something. */
  lemma {:induction false} TakeOne(p: Pipe) returns (r: Pipe)
    requires AtPop(p) && p.ring.ring.Live() != []
    ensures r == After(After(After(After(After(p, Pop(BeginPop)), Pop(CheckEmpty)), Pop(ReadSlot)), Pop(PublishPop)), Apply)
    ensures AtPop(r) && r.shutdown == p.shutdown && r.ring.published == p.ring.published
    ensures |r.ring.ring.Live()| == |p.ring.ring.Live()| - 1
  {
    HeadIsOldest(p.ring.ring);
    BeginPopIs(p);
    MoveKeepsInv(p, Pop(BeginPop));
    var a := After(p, Pop(BeginPop));
    CheckEmptyIs(a);
    MoveKeepsInv(a, Pop(CheckEmpty));
    var b := After(a, Pop(CheckEmpty));
    ReadSlotIs(b);
    MoveKeepsInv(b, Pop(ReadSlot));
    var c := After(b, Pop(ReadSlot));
    PublishPopIs(c);
    MoveKeepsInv(c, Pop(PublishPop));
    var d := After(c, Pop(PublishPop));
    ApplyIs(d);
    MoveKeepsInv(d, Apply);
    r := After(d, Apply);
    CountLive(p.ring, r.ring);
  }

  lemma CountLive(s: State<Event>, r: State<Event>)
    requires Inv(s) && Inv(r) && r.published == s.published && |r.popped| == |s.popped| + 1
    ensures |r.ring.Live()| == |s.ring.Live()| - 1
  {
  }

  /** The outer loop's exit, on an empty ring after shutdown. */
  lemma {:induction false} LeaveEmpty(p: Pipe) returns (r: Pipe)
    requires AtPop(p) && p.ring.ring.Live() == [] && p.shutdown
    ensures r == After(After(After(After(After(p, Pop(BeginPop)), Pop(CheckEmpty)), LoadShutdown), LoadHead), CompareTail)
    ensures r.consuming.Drained? && r.ring == p.ring
  {
    HeadIsOldest(p.ring.ring);
    BeginPopIs(p);
    var a := After(p, Pop(BeginPop));
    CheckEmptyIs(a);
    var b := After(a, Pop(CheckEmpty));
    assert b == p.(consuming := AtShutdown);
    ExitIs(b);
    r := After(After(After(b, LoadShutdown), LoadHead), CompareTail);
  }

  lemma ExitIs(p: Pipe)
    requires InBounds(p.ring) && p.consuming.AtShutdown? && p.shutdown && p.ring.ring.head == p.ring.ring.tail
    ensures After(After(After(p, LoadShutdown), LoadHead), CompareTail) == p.(consuming := Drained)
  {
    assert After(p, LoadShutdown) == p.(consuming := SawShutdown);
    assert After(p.(consuming := SawShutdown), LoadHead) == p.(consuming := SawHead(p.ring.ring.head));
  }

  lemma {:induction false} RunFive(p: Pipe, a: Move, b: Move, c: Move, d: Move, e: Move) returns (moves: seq<Move>)
    requires InBounds(p.ring)
    ensures RunPipe(p, moves) == After(After(After(After(After(p, a), b), c), d), e)
  {
    var p1, p2, p3 := After(p, a), After(After(p, a), b), After(After(After(p, a), b), c);
    moves := [a] + ([b] + ([c] + ([d] + [e])));
    RunCons(p, a, [b] + ([c] + ([d] + [e])));
    RunCons(p1, b, [c] + ([d] + [e]));
    RunCons(p2, c, [d] + [e]);
    RunCons(p3, d, [e]);
    RunOne(After(p3, d), e);
  }

  lemma {:induction false} DrainFrom(p: Pipe) returns (moves: seq<Move>)
    requires AtPop(p) && p.shutdown
    ensures RunPipe(p, moves).consuming.Drained? && RunPipe(p, moves).ring.published == p.ring.published
    decreases |p.ring.ring.Live()|
  {
    if p.ring.ring.Live() == [] {
      var left := LeaveEmpty(p);
      moves := RunFive(p, Pop(BeginPop), Pop(CheckEmpty), LoadShutdown, LoadHead, CompareTail);
    } else {
      var next := TakeOne(p);
      var one := RunFive(p, Pop(BeginPop), Pop(CheckEmpty), Pop(ReadSlot), Pop(PublishPop), Apply);
      var rest := DrainFrom(next);
      RunConcat(p, one, rest);
      moves := one + rest;
    }
  }

  /** After shutdown, and as long as the stop flag is not set, a consumer at its loop head can go on to
      apply everything that the ring accepted and leave by the shutdown-and-empty exit. */
  lemma {:induction false} ShutdownDrains(p: Pipe) returns (moves: seq<Move>)
    requires PipeInv(p) && p.consuming.AtLoop? && p.shutdown && !p.stop
    ensures var r := RunPipe(p, moves);
      r.consuming.Drained? && r.ring.published == p.ring.published && r.applied == p.ring.published
  {
    MoveKeepsInv(p, LookAtStop);
    assert After(p, LookAtStop) == p.(consuming := Popping);
    var rest := DrainFrom(After(p, LookAtStop));
    moves := [LookAtStop] + rest;
    RunCons(p, LookAtStop, rest);
    RunKeepsInv(p, moves);
    AppliedAll(RunPipe(p, moves));
  }

  lemma AppliedAll(r: Pipe)
    requires PipeInv(r) && r.consuming.Drained?
    ensures r.applied == r.ring.published
  {
    assert r.ring.published == r.applied + [] + [];
  }

  // ---- a batch without disturbance --------------------------------------------------------

  ghost function PushCopies(p: Pipe, n: nat): (r: Pipe)
    requires InBounds(p.ring)
    ensures InBounds(r.ring)
  {
    if n == 0 then p else After(PushCopies(p, n - 1), Push(CopySlot))
  }

  lemma CopySlotIs(p: Pipe)
    requires InBounds(p.ring) && p.producing.Pushing? && p.ring.producer.Copying?
    ensures After(p, Push(CopySlot)) == p.(ring := Next(p.ring, CopySlot))
  {
  }

  lemma CopyKeepsCopying(s: State<Event>)
    requires InBounds(s) && s.producer.Copying?
    ensures Next(s, CopySlot).producer.Copying? && Next(s, CopySlot).published == s.published
  {
  }

  lemma {:induction false} CopiesAreRingCopies(p: Pipe, n: nat)
    requires InBounds(p.ring) && p.producing.Pushing? && p.ring.producer.Copying?
    ensures PushCopies(p, n) == p.(ring := CopySteps(p.ring, n))
    ensures CopySteps(p.ring, n).producer.Copying? && CopySteps(p.ring, n).published == p.ring.published
  {
    if n > 0 {
      CopiesAreRingCopies(p, n - 1);
      CopySlotIs(PushCopies(p, n - 1));
      CopyKeepsCopying(CopySteps(p.ring, n - 1));
    }
  }

  lemma PublishBulkIs(p: Pipe)
    requires InBounds(p.ring) && p.producing.Pushing? && p.ring.producer.Copying?
    requires p.ring.producer.i == p.ring.producer.count
    ensures After(p, Push(PublishBulk))
            == p.(ring := Next(p.ring, PublishBulk), producing := Pushed(p.ring.producer.count, p.producing.n))
  {
    var items, n := p.ring.producer.items, p.ring.producer.count;
    assert Next(p.ring, PublishBulk).published == p.ring.published + items[..n];
  }

  lemma LoadsAre(p: Pipe, ds: seq<Datagram>, n: nat)
    requires PipeInv(p) && p.producing.Receiving? && ParsedEvents(ds) != []
    requires n == Min(|ParsedEvents(ds)|, |p.ring.ring.slots| - 1 - p.ring.ring.Size())
    ensures var events := ParsedEvents(ds);
      After(After(p, Batch(ds)), Push(LoadTail)) == p.(
        ring := if n == 0 then p.ring else p.ring.(producer := Copying(events, p.ring.ring.tail, n, 0)),
        producing := if n == 0 then Pushed(0, |events|) else Pushing(|events|),
        received := p.received + events)
  {
    SoloStart(p.ring, ParsedEvents(ds), n);
  }

  lemma CountsAre(p: Pipe, pushed: nat, n: nat)
    requires InBounds(p.ring) && p.producing == Pushed(pushed, n) && pushed <= n
    ensures After(After(p, CountProcessed), CountDropped)
            == p.(processed := p.processed + pushed, dropped := p.dropped + (n - pushed), producing := Receiving)
  {
    assert After(p, CountProcessed) == p.(processed := p.processed + pushed, producing := CountedProcessed(n - pushed));
  }

  /** The moves of a whole batch. */
  ghost function WholeBatch(p: Pipe, ds: seq<Datagram>, n: nat): (r: Pipe)
    requires InBounds(p.ring)
  {
    var pushed := After(PushCopies(After(After(p, Batch(ds)), Push(LoadTail)), n), Push(PublishBulk));
    After(After(pushed, CountProcessed), CountDropped)
  }

  /** A batch that nobody disturbs is pushed as single pushes would be, and counted: what the ring has
      room for as processed, the rest as dropped. */
  lemma {:induction false} SoloBatch(p: Pipe, ds: seq<Datagram>, n: nat)
    requires PipeInv(p) && p.producing.Receiving? && ParsedEvents(ds) != []
    requires n == Min(|ParsedEvents(ds)|, |p.ring.ring.slots| - 1 - p.ring.ring.Size())
    ensures var events, r := ParsedEvents(ds), WholeBatch(p, ds, n);
      && r.producing.Receiving? && r.ring.ring == p.ring.ring.PushAll(events)
      && r.received == p.received + events
      && r.processed == p.processed + n && r.dropped == p.dropped + (|events| - n)
  {
    var events := ParsedEvents(ds);
    LoadsAre(p, ds, n);
    SoloBulk(p.ring, events, n);
    SoloStart(p.ring, events, n);
    var loaded := After(After(p, Batch(ds)), Push(LoadTail));
    if n > 0 {
      CopiesAreRingCopies(loaded, n);
      SoloCopy(loaded.ring, n);
      var copied := PushCopies(loaded, n);
      PublishBulkIs(copied);
      CountsAre(After(copied, Push(PublishBulk)), n, |events|);
    } else {
      assert After(loaded, Push(PublishBulk)) == loaded;
      CountsAre(loaded, 0, |events|);
    }
  }
}
