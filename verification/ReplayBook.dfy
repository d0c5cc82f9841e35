/** Replaying a journal rebuilds the book (cpp/src/replay_sender.cpp into cpp/src/order_book.cpp). */
module ReplayBook {
  import opened Delimited
  import opened Events
  import opened Journal
  import opened RoundTrip
  import opened OrderBook
  import opened BookRuns

  /** The book depends only on what feed messages carry, not on receive times or senders. */
  lemma {:induction false} FedByPayload(books: Books, a: seq<Event>, b: seq<Event>)
    requires Payloads(a) == Payloads(b)
    ensures FeedAll(books, a) == FeedAll(books, b)
    decreases |a|
  {
    assert |a| == |Payloads(a)| == |b|;
    if a != [] {
      var n := |a| - 1;
      assert Payloads(a)[n] == PayloadOf(a[n]) && Payloads(b)[n] == PayloadOf(b[n]);
      assert Payloads(a[..n]) == Payloads(a)[..n] && Payloads(b[..n]) == Payloads(b)[..n];
      FedByPayload(books, a[..n], b[..n]);
    }
  }

  /** Sending a journal's events again into an empty book gives the book that the journaled events
      gave; sending them into that book once more changes nothing. */
  lemma {:induction false} ReplayRebuildsBook(evs: seq<Event>, ds: seq<Datagram>)
    requires forall i | 0 <= i < |evs| :: Representable(evs[i]) && Clean(evs[i].symbol)
    requires CarryReplay(ds, JournalText(evs))
    ensures FeedAll(map[], ParsedEvents(ds)) == FeedAll(map[], evs)
    ensures FeedAll(FeedAll(map[], evs), ParsedEvents(ds)) == FeedAll(map[], evs)
  {
    JournalRoundTrip(evs, ds);
    FedByPayload(map[], ParsedEvents(ds), evs);
    FedByPayload(FeedAll(map[], evs), ParsedEvents(ds), evs);
    ReplayIsIdempotent(evs);
  }
}
