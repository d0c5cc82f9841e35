/** The receiver thread and the order-book consumer thread around the ring
    (cpp/src/udp_receiver.cpp, the batched path and orderbook_consumer), interleaved at every step
    of the ring protocol. The consumer's book is fed by this thread alone. */
module Pipeline {
  import opened Events
  import opened SpscProtocol
  import opened OrderBook
  import opened BookRuns

  /** Where the receiver is within a batch of n events. */
  datatype Producing =
    | Receiving
    | Pushing(n: nat)                       // inside push_bulk
    | Pushed(pushed: nat, n: nat)           // push_bulk returned
    | CountedProcessed(rest: nat)           // processed counter updated
    | Finished                              // notify_shutdown done, no further push

  /** Where the consumer loop is. */
  datatype Consuming =
    | AtLoop                                // about to look at the stop flag
    | Popping                               // inside q.pop
    | Applying(ev: Event)
    | AtShutdown                            // pop found nothing
    | SawShutdown                           // is_shutdown() was true
    | SawHead(head: nat)                    // empty() loaded head
    | Stopped                               // left because of the stop flag
    | Drained                               // left because shut down and empty

  datatype Pipe = Pipe(ring: State<Event>, producing: Producing, consuming: Consuming,
                       stop: bool, shutdown: bool, received: seq<Event>, processed: nat, dropped: nat,
                       start: Books, books: Books, applied: seq<Event>)

  datatype Move =
    | Batch(ds: seq<Datagram>) | Push(a: Action<Event>) | CountProcessed | CountDropped | NotifyShutdown
    | SetStop | LookAtStop | Pop(a: Action<Event>) | Apply | LoadShutdown | LoadHead | CompareTail

  ghost predicate IsPushStep(a: Action<Event>) { a.LoadTail? || a.CopySlot? || a.PublishBulk? }

  /** A batch starts its bulk push; an empty one pushes nothing. */
  ghost function AfterBatch(p: Pipe, events: seq<Event>): Pipe
    requires InBounds(p.ring)
  {
    if events == [] then p
    else p.(ring := Next(p.ring, BeginBulk(events)), producing := Pushing(|events|), received := p.received + events)
  }

  /** A step inside push_bulk; it returns when the producer is idle again. */
  ghost function AfterPush(p: Pipe, a: Action<Event>): Pipe
    requires InBounds(p.ring) && p.producing.Pushing?
  {
    var ring := Next(p.ring, a);
    var returned := ring.producer.Idle?;
    p.(ring := ring,
       producing := if returned then Pushed(|ring.published| - |p.ring.published|, p.producing.n) else p.producing)
  }

  /** A step inside pop; it returns when the consumer side is resting again. */
  ghost function AfterPop(p: Pipe, a: Action<Event>): Pipe
    requires InBounds(p.ring)
  {
    var ring := Next(p.ring, a);
    p.(ring := ring,
       consuming := if a.PublishPop? && |ring.popped| > |p.ring.popped| then Applying(ring.popped[|ring.popped| - 1])
                    else if a.CheckEmpty? && p.ring.consumer.PopHead? && ring.consumer.Resting? then AtShutdown
                    else Popping)
  }

  /** One step of either thread. A move that does not fit changes nothing. */
  ghost function After(p: Pipe, m: Move): (r: Pipe)
    requires InBounds(p.ring)
    ensures InBounds(r.ring) && r.start == p.start
  {
    match m
    case Batch(ds) => if p.producing.Receiving? then AfterBatch(p, ParsedEvents(ds)) else p
    case Push(a) => if p.producing.Pushing? && IsPushStep(a) then AfterPush(p, a) else p
    case CountProcessed =>
      if p.producing.Pushed? && p.producing.pushed <= p.producing.n then
        p.(processed := p.processed + p.producing.pushed, producing := CountedProcessed(p.producing.n - p.producing.pushed))
      else p
    case CountDropped =>
      if p.producing.CountedProcessed? then p.(dropped := p.dropped + p.producing.rest, producing := Receiving) else p
    case NotifyShutdown => if p.producing.Receiving? then p.(shutdown := true, producing := Finished) else p
    case SetStop => p.(stop := true)
    case LookAtStop => if p.consuming.AtLoop? then p.(consuming := if p.stop then Stopped else Popping) else p
    case Pop(a) => if p.consuming.Popping? && IsPopStep(a) then AfterPop(p, a) else p
    case Apply =>
      if p.consuming.Applying? then
        p.(books := Feed(p.books, p.consuming.ev), applied := p.applied + [p.consuming.ev], consuming := Popping)
      else p
    case LoadShutdown => if p.consuming.AtShutdown? then p.(consuming := if p.shutdown then SawShutdown else AtLoop) else p
    case LoadHead => if p.consuming.SawShutdown? then p.(consuming := SawHead(p.ring.ring.head)) else p
    case CompareTail =>
      if p.consuming.SawHead? then p.(consuming := if p.consuming.head == p.ring.ring.tail then Drained else AtLoop) else p
  }

  ghost predicate Start(p: Pipe) {
    && Init(p.ring) && p.producing.Receiving? && p.consuming.AtLoop? && !p.shutdown
    && p.received == [] && p.processed == p.dropped == 0 && p.books == p.start && p.applied == []
  }

  // ---- the invariant ------------------------------------------------------------------

  ghost predicate ReceiverInv(p: Pipe) {
    && (p.shutdown <==> p.producing.Finished?)
    && match p.producing
       case Receiving => p.ring.producer.Idle? && Counted(p, 0, 0)
       case Finished => p.ring.producer.Idle? && Counted(p, 0, 0)
       case Pushing(n) =>
         && (p.ring.producer.BulkHead? || p.ring.producer.Copying?)
         && |p.ring.producer.items| == n && Counted(p, 0, n)
       case Pushed(pushed, n) => p.ring.producer.Idle? && pushed <= n && Counted(p, pushed, n)
       case CountedProcessed(rest) => p.ring.producer.Idle? && Counted(p, 0, rest)
  }

  /** published events are counted but for uncounted ones, received ones but for pending ones. */
  ghost predicate Counted(p: Pipe, uncounted: int, pending: int) {
    && |p.ring.published| == p.processed + uncounted
    && |p.received| == p.processed + p.dropped + pending
  }

  ghost predicate BookInv(p: Pipe)
    requires p.ring.ring.Valid()
  {
    && p.books == FeedAll(p.start, p.applied)
    && p.ring.popped == p.applied + (if p.consuming.Applying? then [p.consuming.ev] else [])
    && (!p.consuming.Popping? ==> p.ring.consumer.Resting?)
    && match p.consuming
       case SawShutdown => p.shutdown
       case SawHead(h) => p.shutdown && h == p.ring.ring.head
       case Drained => p.shutdown && p.ring.ring.Live() == []
       case _ => true
  }

  ghost predicate PipeInv(p: Pipe) {
    InBounds(p.ring) && Inv(p.ring) && ReceiverInv(p) && BookInv(p)
  }

  /** What a step inside push_bulk does to the ring's histories. */
  lemma PushEffect(s: State<Event>, a: Action<Event>)
    requires InBounds(s) && Inv(s) && (s.producer.BulkHead? || s.producer.Copying?) && IsPushStep(a)
    ensures var r := Next(s, a);
      && r.consumer == s.consumer && r.popped == s.popped && r.ring.head == s.ring.head
      && (if r.producer.Idle? then 0 <= |r.published| - |s.published| <= |s.producer.items|
          else (r.producer.BulkHead? || r.producer.Copying?) && r.producer.items == s.producer.items && r.published == s.published)
  {
  }

  lemma PopEffect(s: State<Event>, a: Action<Event>)
    requires InBounds(s) && IsPopStep(a)
    ensures var r := Next(s, a);
      && r.producer == s.producer && r.published == s.published && r.ring.tail == s.ring.tail
      && (if s.consumer.PopRead? && a.PublishPop? then r.consumer.Resting? && r.popped == s.popped + [s.consumer.out]
          else r.popped == s.popped)
      && (a.CheckEmpty? && s.consumer.PopHead? && r.consumer.Resting? ==> r == s.(consumer := Resting))
  {
  }

  lemma BatchStep(p: Pipe, events: seq<Event>)
    requires PipeInv(p) && p.producing.Receiving?
    ensures PipeInv(AfterBatch(p, events))
  {
    InvStep(p.ring, BeginBulk(events));
  }

  lemma PushStep(p: Pipe, a: Action<Event>)
    requires PipeInv(p) && p.producing.Pushing? && IsPushStep(a)
    ensures PipeInv(AfterPush(p, a))
  {
    InvStep(p.ring, a);
    PushEffect(p.ring, a);
  }

  lemma PopStep(p: Pipe, a: Action<Event>)
    requires PipeInv(p) && p.consuming.Popping? && IsPopStep(a)
    ensures PipeInv(AfterPop(p, a))
  {
    InvStep(p.ring, a);
    PopEffect(p.ring, a);
  }

  lemma ApplyStep(p: Pipe)
    requires PipeInv(p) && p.consuming.Applying?
    ensures PipeInv(After(p, Apply))
  {
    var ev := p.consuming.ev;
    assert (p.applied + [ev])[..|p.applied|] == p.applied;
    assert p.applied + [ev] + [] == p.applied + [ev];
  }

  lemma CounterStep(p: Pipe, m: Move)
    requires PipeInv(p) && (m.CountProcessed? || m.CountDropped? || m.NotifyShutdown? || m.SetStop?)
    ensures PipeInv(After(p, m))
  {
  }

  lemma LoopStep(p: Pipe, m: Move)
    requires PipeInv(p) && (m.LookAtStop? || m.LoadShutdown? || m.LoadHead?)
    ensures PipeInv(After(p, m))
  {
  }

  lemma CompareStep(p: Pipe)
    requires PipeInv(p)
    ensures PipeInv(After(p, CompareTail))
  {
  }

  lemma MoveKeepsInv(p: Pipe, m: Move)
    requires PipeInv(p)
    ensures PipeInv(After(p, m))
  {
    if m.CountProcessed? || m.CountDropped? || m.NotifyShutdown? || m.SetStop? {
      CounterStep(p, m);
    } else if m.LookAtStop? || m.LoadShutdown? || m.LoadHead? {
      LoopStep(p, m);
    } else if m.CompareTail? {
      CompareStep(p);
    } else if m.Batch? {
      if p.producing.Receiving? { BatchStep(p, ParsedEvents(m.ds)); }
    } else if m.Push? {
      if p.producing.Pushing? && IsPushStep(m.a) { PushStep(p, m.a); }
    } else if m.Pop? {
      if p.consuming.Popping? && IsPopStep(m.a) { PopStep(p, m.a); }
    } else if p.consuming.Applying? {
      ApplyStep(p);
    }
  }

  ghost function RunPipe(p: Pipe, moves: seq<Move>): (r: Pipe)
    requires InBounds(p.ring)
    ensures InBounds(r.ring) && r.start == p.start
    decreases |moves|
  {
    if moves == [] then p else RunPipe(After(p, moves[0]), moves[1..])
  }

  lemma {:induction false} RunKeepsInv(p: Pipe, moves: seq<Move>)
    requires PipeInv(p)
    ensures PipeInv(RunPipe(p, moves))
    decreases |moves|
  {
    if moves != [] {
      MoveKeepsInv(p, moves[0]);
      var next, rest := After(p, moves[0]), moves[1..];
      RunKeepsInv(next, rest);
    }
  }

  lemma StartInv(p: Pipe)
    requires Start(p)
    ensures PipeInv(p)
  {
    InitInv(p.ring);
  }

  // ---- what holds in every run ----------------------------------------------------------

  /** At batch boundaries every well-formed datagram received is counted once; the counter of
      processed events is what the ring accepted; the events applied to the book are a prefix of
      those, in order. */
  lemma {:induction false} CountedOnceAndInOrder(p: Pipe, moves: seq<Move>)
    requires Start(p)
    ensures var r := RunPipe(p, moves);
      && (r.producing.Receiving? || r.producing.Finished? ==>
            r.processed + r.dropped == |r.received| && r.processed == |r.ring.published|)
      && r.applied <= r.ring.published
      && r.books == FeedAll(p.start, r.applied)
  {
    StartInv(p);
    RunKeepsInv(p, moves);
  }

  /** The consumer's shutdown-and-empty exit loses nothing: everything the ring accepted has been
      applied, and from an empty book its asks are the last writes of the accepted events. */
  lemma {:induction false} DrainedMeansApplied(p: Pipe, moves: seq<Move>)
    requires Start(p) && RunPipe(p, moves).consuming.Drained?
    ensures var r := RunPipe(p, moves);
      && r.applied == r.ring.published && |r.applied| == r.processed
      && r.books == FeedAll(p.start, r.ring.published)
      && (p.start == map[] ==> IsLastWrite(r.books, r.ring.published))
  {
    StartInv(p);
    RunKeepsInv(p, moves);
    var r := RunPipe(p, moves);
    assert r.ring.published == r.applied + [] + [];
    LastWriteWins(r.ring.published);
  }

  /** The other exit can lose events: in every run that leaves by it, the consumer abandons exactly
      what is live in the ring. */
  lemma {:induction false} StopAbandonsTheRing(p: Pipe, moves: seq<Move>)
    requires Start(p) && RunPipe(p, moves).consuming.Stopped?
    ensures var r := RunPipe(p, moves);
      && r.ring.published == r.applied + r.ring.ring.Live()
      && (r.applied == r.ring.published <==> r.ring.ring.Live() == [])
  {
    StartInv(p);
    RunKeepsInv(p, moves);
    var r := RunPipe(p, moves);
    assert r.applied + [] == r.applied;
    assert |r.ring.published| == |r.applied| + |r.ring.ring.Live()|;
  }

  /** It is taken from any reachable loop head, however full the ring, when the receiver shuts the
      queue down and the stop flag is set before the consumer looks again. */
  lemma StopIsTakenAtOnce(p: Pipe)
    requires PipeInv(p) && p.producing.Receiving? && p.consuming.AtLoop?
    ensures var r := After(After(After(p, NotifyShutdown), SetStop), LookAtStop);
      && r.consuming.Stopped? && r.shutdown && r.ring == p.ring
      && r.ring.published == r.applied + p.ring.ring.Live()
  {
    assert p.applied + [] == p.applied;
  }
}
