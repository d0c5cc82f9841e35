/** One pass of the batched receive loop (cpp/src/udp_receiver.cpp, run_udp_receiver): parse the
    datagrams, journal the events, push them into the ring, count what was taken and dropped. */
module Receiver {
  import opened Prelude
  import opened Events
  import opened Journal
  import RoundTrip
  import opened GatherWrite
  import SpscQueue

  /** One journal line per event, newline included. */
  function Lines(evs: seq<Event>): seq<string> {
    seq(|evs|, i requires 0 <= i < |evs| => JsonLine(evs[i]) + "\n")
  }

  lemma {:induction false} LinesAreTheJournal(evs: seq<Event>)
    ensures Flatten(Lines(evs)) == JournalText(evs)
  {
    if evs != [] {
      LinesAreTheJournal(evs[1..]);
      LinesTail(evs);
      FirstOf(Lines(evs), JsonLine(evs[0]) + "\n");
      Reassociate(JsonLine(evs[0]), JournalText(evs[1..]));
    }
  }

  lemma {:induction false} LinesTail(evs: seq<Event>)
    requires evs != []
    ensures Lines(evs)[0] == JsonLine(evs[0]) + "\n" && Lines(evs)[1..] == Lines(evs[1..])
  {
    var a, b := Lines(evs)[1..], Lines(evs[1..]);
    assert |a| == |b|;
    forall i | 0 <= i < |a| ensures a[i] == b[i] {
      assert evs[i + 1] == evs[1..][i];
    }
  }

  lemma {:induction false} FirstOf(lines: seq<string>, first: string)
    requires lines != [] && lines[0] == first
    ensures Flatten(lines) == first + Flatten(lines[1..])
  {
  }

  /** A line ends with a newline, and in front of it every field of its event reads back under its own
      key: sequence number, both times, latency, symbol, price, size and sender. */
  ghost predicate IsLineOf(line: string, ev: Event) {
    && line != "" && line[|line| - 1] == '\n'
    && (RoundTrip.Readable(ev) ==> RoundTrip.Carries(line[..|line| - 1], ev))
  }

  lemma {:induction false} LinesCarryTheEvents(evs: seq<Event>)
    ensures forall j | 0 <= j < |evs| :: IsLineOf(Lines(evs)[j], evs[j])
  {
    forall j | 0 <= j < |evs| ensures IsLineOf(Lines(evs)[j], evs[j]) {
      var line := Lines(evs)[j];
      assert line[..|line| - 1] == JsonLine(evs[j]);
      if RoundTrip.Readable(evs[j]) { RoundTrip.EveryFieldReadsBack(evs[j]); }
    }
  }

  ghost predicate IsEventOf(ev: Event, d: Datagram) {
    && Receive(d.bytes, d.recvTs, d.src) == Some(ev)
    && ev.recvTs == d.recvTs && ev.src == d.src && ev.latency == d.recvTs - ev.msgTs
  }

  /** Every event of a batch is that of one of its datagrams, stamped with that datagram's receive time
      and sender. */
  lemma {:induction false} EventsAreStamped(ds: seq<Datagram>, j: nat)
    requires j < |ParsedEvents(ds)|
    ensures exists i :: 0 <= i < |ds| && IsEventOf(ParsedEvents(ds)[j], ds[i])
  {
    SomesMember(Receptions(ds), j);
    var i :| 0 <= i < |ds| && Receptions(ds)[i] == Some(ParsedEvents(ds)[j]);
    ReceiveExactlyWhen(ds[i].bytes, ds[i].recvTs, ds[i].src);
    assert IsEventOf(ParsedEvents(ds)[j], ds[i]);
  }

  lemma Reassociate(line: string, rest: string)
    ensures (line + "\n") + rest == line + ("\n" + rest)
  {
  }

  /** While a batch is being written, after any number of calls that the kernel answers in any way,
      what has reached the journal is a prefix of the batch's text. */
  lemma {:induction false} JournalGrowsInOrder(evs: seq<Event>, kernel: nat -> Outcome, k: nat)
    ensures Out(Lines(evs), kernel, k) <= JournalText(evs)
  {
    LinesAreTheJournal(evs);
    EmittedIsPrefix(Lines(evs), kernel, k);
  }

  /** Lines are never empty, so the write ends under every kernel that is interrupted and writes
      nothing only finitely often. */
  lemma {:induction false} JournalWriteEnds(evs: seq<Event>, kernel: nat -> Outcome, quiet: nat) returns (last: nat)
    requires QuietFrom(kernel, quiet)
    ensures Over(Lines(evs), kernel, last)
  {
    forall g: nat ensures !GapAt(Lines(evs), g) {
      if g < |evs| { assert Lines(evs)[g] != ""; }
    }
    last := QuietKernelEnds(Lines(evs), kernel, quiet);
  }

  /** The per-datagram loop. */
  method ParseBatch(ds: seq<Datagram>) returns (events: seq<Event>, lines: seq<string>)
    ensures events == ParsedEvents(ds) && lines == Lines(events)
    ensures forall j | 0 <= j < |events| :: IsLineOf(lines[j], events[j])
  {
    ghost var all := Receptions(ds);
    events, lines := [], [];
    for i := 0 to |ds|
      invariant events == Somes(all[..i])
      invariant lines == Lines(events)
    {
      var ev := ParseDatagram(ds[i].bytes, ds[i].recvTs, ds[i].src);
      SomesSnoc(all, i);
      if ev.Some? {
        lines := AppendLine(events, lines, ev.value);
        events := events + [ev.value];
      }
    }
    assert all[..|ds|] == all;
    LinesCarryTheEvents(events);
  }

  method AppendLine(ghost events: seq<Event>, lines: seq<string>, ev: Event) returns (r: seq<string>)
    requires lines == Lines(events)
    ensures r == Lines(events + [ev])
  {
    r := lines + [JsonLine(ev) + "\n"];
  }

  class Receiver {
    const queue: SpscQueue.SpscQueue<Event>
    var journal: string
    var processed: nat
    var dropped: nat
    var writeErrors: nat

    constructor (queue: SpscQueue.SpscQueue<Event>)
      ensures this.queue == queue && journal == "" && processed == dropped == writeErrors == 0
    {
      this.queue := queue;
      journal := "";
      processed, dropped, writeErrors := 0, 0, 0;
    }

    /** Every well-formed datagram is counted once, as processed or as dropped; the queue takes the
        processed ones, a prefix as long as it has room; the journal takes all of them, or a prefix of
        their text when a write fails. */
    method HandleBatch(ds: seq<Datagram>, kernel: nat -> Outcome, ghost last: nat)
      requires queue.Valid() && Over(Lines(ParsedEvents(ds)), kernel, last)
      modifies this, queue`tail, queue.buffer
      ensures queue.Valid()
      ensures var events := ParsedEvents(ds);
        var pushed := Min(|events|, queue.capacity - 1 - old(queue.View().Size()));
        && processed == old(processed) + pushed && dropped == old(dropped) + (|events| - pushed)
        && queue.View().Live() == old(queue.View().Live()) + events[..pushed]
      ensures old(journal) <= journal <= old(journal) + JournalText(ParsedEvents(ds))
      ensures writeErrors == old(writeErrors) + (if journal == old(journal) + JournalText(ParsedEvents(ds)) then 0 else 1)
    {
      var events, lines := ParseBatch(ds);
      WriteJournal(events, lines, kernel, last);
      PushBatch(events);
    }

    /** The batch push with its two counters. */
    method PushBatch(events: seq<Event>)
      requires queue.Valid()
      modifies this`processed, this`dropped, queue`tail, queue.buffer
      ensures queue.Valid()
      ensures var pushed := Min(|events|, queue.capacity - 1 - old(queue.View().Size()));
        && processed == old(processed) + pushed && dropped == old(dropped) + (|events| - pushed)
        && queue.View().Live() == old(queue.View().Live()) + events[..pushed]
    {
      if events != [] {
        var pushed := queue.PushBulk(events);
        processed := processed + pushed;
        if pushed < |events| {
          dropped := dropped + (|events| - pushed);
        }
      } else {
        assert old(queue.View().Live()) + events[..0] == old(queue.View().Live());
      }
    }

    method WriteJournal(events: seq<Event>, lines: seq<string>, kernel: nat -> Outcome, ghost last: nat)
      requires lines == Lines(events) && Over(lines, kernel, last)
      modifies this`journal, this`writeErrors
      ensures old(journal) <= journal <= old(journal) + JournalText(events)
      ensures writeErrors == old(writeErrors) + (if journal == old(journal) + JournalText(events) then 0 else 1)
    {
      LinesAreTheJournal(events);
      if lines != [] {
        var ok, emitted, calls := WritevAll(lines, kernel, last);
        journal := journal + emitted;
        if !ok { writeErrors := writeErrors + 1; }
        assert old(journal) + emitted == old(journal) + JournalText(events) ==> emitted == JournalText(events) by {
          assert (old(journal) + emitted)[|old(journal)|..] == emitted;
          assert (old(journal) + JournalText(events))[|old(journal)|..] == JournalText(events);
        }
      } else {
        assert journal + "" == journal;
      }
    }
  }
}
