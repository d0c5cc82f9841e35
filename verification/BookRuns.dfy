/** What every sequence of feed events and matched orders does to a book (cpp/src/order_book.cpp). */
module BookRuns {
  import opened Prelude
  import opened Events
  import opened Levels
  import opened Matching
  import opened OrderBook

  /** One call on the book, each atomic under its mutex. */
  datatype Call = FeedCall(ev: Event) | MatchCall(order: Order)

  ghost function After(books: Books, call: Call): Books {
    match call
    case FeedCall(ev) => Feed(books, ev)
    case MatchCall(o) => MatchBooks(books, o)
  }

  ghost function Run(books: Books, calls: seq<Call>): Books
    decreases |calls|
  {
    if calls == [] then books else Run(After(books, calls[0]), calls[1..])
  }

  // ---- uncrossed and positive -------------------------------------------------------

  ghost predicate Uncrossed(sb: SideBook) {
    forall i, j | 0 <= i < |sb.bids| && 0 <= j < |sb.asks| :: sb.bids[i].price < sb.asks[j].price
  }

  ghost predicate Good(sb: SideBook) {
    && Sorted(true, sb.bids) && Sorted(false, sb.asks)
    && Positive(sb.bids) && Positive(sb.asks)
    && Uncrossed(sb)
  }

  ghost predicate GoodBooks(books: Books) {
    forall s | s in books :: Good(books[s])
  }

  function BestBid(books: Books, symbol: string): Option<int> { Best(SidesOf(books, symbol).bids) }

  /** No bid at all is below every bid. */
  predicate NotAbove(x: Option<int>, y: Option<int>) {
    x.Some? ==> y.Some? && x.value <= y.value
  }

  /** What one event does: a size writes exactly one level, on the bid side if and only if some bid
      rests at or above the price; no size removes the price from both sides; nothing else changes. */
  lemma FeedEffect(books: Books, ev: Event)
    requires WellSorted(books) && ev.symbol != ""
    ensures var sb, r := SidesOf(books, ev.symbol), SidesOf(Feed(books, ev), ev.symbol);
      var toBids := exists l :: l in sb.bids && ev.price <= l.price;
      && WellSorted(Feed(books, ev))
      && AsMap(r.bids) == (if ev.size <= 0 || toBids then SetAt(AsMap(sb.bids), ev.price, ev.size) else AsMap(sb.bids))
      && AsMap(r.asks) == (if ev.size <= 0 || !toBids then SetAt(AsMap(sb.asks), ev.price, ev.size) else AsMap(sb.asks))
    ensures forall s | s != ev.symbol :: SidesOf(Feed(books, ev), s) == SidesOf(books, s)
  {
    var sb := SidesOf(books, ev.symbol);
    SetOneSide(true, sb.bids, ev.price, ev.size);
    SetOneSide(false, sb.asks, ev.price, ev.size);
    if sb.bids != [] { assert sb.bids[0] in sb.bids; }
  }

  lemma {:induction false} RestKeepsOrder(desc: bool, ls: seq<Level>, size: int)
    requires Sorted(desc, ls)
    ensures Sorted(desc, Rest(ls, size))
  {
    if ls != [] && size > 0 && ls[0].size <= size {
      RestKeepsOrder(desc, ls[1..], size - (if ls[0].size > 0 then ls[0].size else 0));
    }
  }

  /** In every run each side stays in the order of its map, crossed or not, positive or not. */
  lemma {:induction false} RunsStaySorted(books: Books, calls: seq<Call>)
    requires WellSorted(books)
    ensures WellSorted(Run(books, calls))
    decreases |calls|
  {
    if calls != [] {
      match calls[0] {
        case FeedCall(ev) => if ev.symbol != "" { FeedEffect(books, ev); }
        case MatchCall(o) =>
          RestKeepsOrder(true, SidesOf(books, o.symbol).bids, o.size);
          RestKeepsOrder(false, SidesOf(books, o.symbol).asks, o.size);
      }
      RunsStaySorted(After(books, calls[0]), calls[1..]);
    }
  }

  lemma FeedKeepsGood(sb: SideBook, price: int, size: int)
    requires Good(sb)
    ensures Good(FeedSides(sb, price, size))
    ensures NotAbove(Best(FeedSides(sb, price, size).bids), Best(sb.bids))
  {
    if size <= 0 {
      EraseIsRemoval(true, sb.bids, price);
      EraseIsRemoval(false, sb.asks, price);
      FromMembers(sb, FeedSides(sb, price, size), Level(price, 1), true);
    } else if sb.bids != [] && price <= sb.bids[0].price {
      PutIsUpdate(true, sb.bids, price, size);
      FromMembers(sb, FeedSides(sb, price, size), Level(price, size), true);
    } else {
      PutIsUpdate(false, sb.asks, price, size);
      FromMembers(sb, FeedSides(sb, price, size), Level(price, size), false);
    }
  }

  /** Levels drawn from a good book, plus one new level on the right side of the spread. */
  lemma FromMembers(sb: SideBook, r: SideBook, l: Level, bid: bool)
    requires Good(sb) && Sorted(true, r.bids) && Sorted(false, r.asks) && l.size > 0
    requires forall x | x in r.bids :: x in sb.bids || (bid && x == l && sb.bids != [] && l.price <= sb.bids[0].price)
    requires forall x | x in r.asks :: x in sb.asks || (!bid && x == l && (sb.bids == [] || sb.bids[0].price < l.price))
    ensures Good(r) && NotAbove(Best(r.bids), Best(sb.bids))
  {
    forall i | 0 <= i < |r.bids| ensures r.bids[i].size > 0 && sb.bids != [] && r.bids[i].price <= sb.bids[0].price {
      assert r.bids[i] in r.bids;
    }
    forall j | 0 <= j < |r.asks| ensures r.asks[j].size > 0 && (sb.bids != [] ==> sb.bids[0].price < r.asks[j].price) {
      assert r.asks[j] in r.asks;
    }
  }

  /** The prices of r are the last prices of ls. */
  ghost predicate EndsIn(ls: seq<Level>, r: seq<Level>) {
    |r| <= |ls| && Positive(r) && forall i | 0 <= i < |r| :: r[i].price == ls[|ls| - |r| + i].price
  }

  lemma EndsInTail(ls: seq<Level>, r: seq<Level>)
    requires ls != [] && EndsIn(ls[1..], r)
    ensures EndsIn(ls, r)
  {
    forall i | 0 <= i < |r| ensures r[i].price == ls[|ls| - |r| + i].price {
      assert ls[1..][|ls[1..]| - |r| + i] == ls[|ls| - |r| + i];
    }
  }

  /** What remains after matching is a tail of the levels, the first one possibly smaller. */
  lemma {:induction false} RestIsTail(ls: seq<Level>, size: int)
    requires Positive(ls)
    ensures EndsIn(ls, Rest(ls, size))
  {
    if ls != [] && size > 0 {
      if ls[0].size <= size {
        RestIsTail(ls[1..], size - ls[0].size);
        EndsInTail(ls, Rest(ls[1..], size - ls[0].size));
      } else {
        assert Rest(ls, size) == [Level(ls[0].price, ls[0].size - size)] + ls[1..];
      }
    }
  }

  lemma MatchKeepsGood(sb: SideBook, side: Side, size: int)
    requires Good(sb)
    ensures Good(MatchSides(sb, side, size))
    ensures NotAbove(Best(MatchSides(sb, side, size).bids), Best(sb.bids))
  {
    RestIsTail(sb.bids, size);
    RestIsTail(sb.asks, size);
  }

  lemma StepKeepsGood(books: Books, call: Call)
    requires GoodBooks(books)
    ensures GoodBooks(After(books, call))
    ensures forall s :: NotAbove(BestBid(After(books, call), s), BestBid(books, s))
  {
    match call
    case FeedCall(ev) => FeedKeepsGood(SidesOf(books, ev.symbol), ev.price, ev.size);
    case MatchCall(o) => MatchKeepsGood(SidesOf(books, o.symbol), o.side, o.size);
  }

  /** From an uncrossed book with positive levels, every run keeps it so, and the best bid of a
      symbol never rises. */
  lemma {:induction false} RunsStayUncrossed(books: Books, calls: seq<Call>, symbol: string)
    requires GoodBooks(books)
    ensures GoodBooks(Run(books, calls))
    ensures NotAbove(BestBid(Run(books, calls), symbol), BestBid(books, symbol))
    decreases |calls|
  {
    if calls != [] {
      StepKeepsGood(books, calls[0]);
      RunsStayUncrossed(After(books, calls[0]), calls[1..], symbol);
    }
  }

  /** A book that starts empty never has a bid, so no SELL is ever filled, whatever is fed. */
  lemma {:induction false} SellsNeverFill(calls: seq<Call>, o: Order)
    requires o.side.SELL?
    ensures MatchFills(Run(map[], calls), o) == []
  {
    RunsStayUncrossed(map[], calls, o.symbol);
  }

  // ---- matching on whole books --------------------------------------------------------

  /** The central contract of match_order: it fills exactly what is there, level by level from the
      best one on, at the best possible prices, touches no other symbol and not the order's own side, and conserves size per price. */
  lemma {:induction false} MatchIsExactAndOptimal(books: Books, o: Order, take: seq<int>, price: int)
    requires o.size > 0 && Positive(Opposite(SidesOf(books, o.symbol), o.side))
    requires Sorted(o.side.SELL?, Opposite(SidesOf(books, o.symbol), o.side))
    ensures var sb, fills := SidesOf(books, o.symbol), MatchFills(books, o);
      var levels := Opposite(sb, o.side);
      && Filled(fills) == Min(o.size, Total(levels))
      && |fills| <= |levels|
      && (forall i | 0 <= i < |fills| :: fills[i].clid == o.clid && fills[i].price == levels[i].price)
      && (forall i | 0 <= i < |fills| - 1 :: fills[i].size == levels[i].size)
      && (Feasible(levels, take) && Units(take) == Filled(fills) ==>
            if o.side.BUY? then Notional(fills) <= Cost(levels, take) else Cost(levels, take) <= Notional(fills))
    ensures var sb, sb' := SidesOf(books, o.symbol), SidesOf(MatchBooks(books, o), o.symbol);
      && RestingAt(Opposite(sb, o.side), price)
         == FilledAt(MatchFills(books, o), price) + RestingAt(Opposite(sb', o.side), price)
      && (if o.side.BUY? then sb'.bids == sb.bids else sb'.asks == sb.asks)
    ensures forall s | s != o.symbol :: SidesOf(MatchBooks(books, o), s) == SidesOf(books, s)
  {
    var levels := Opposite(SidesOf(books, o.symbol), o.side);
    FillsExactly(o.clid, levels, o.size);
    FillsWalkTheLevels(o.clid, levels, o.size);
    FillBound(o.clid, levels, o.size);
    if Feasible(levels, take) && Units(take) == Filled(MatchFills(books, o)) {
      GreedyIsOptimal(o.side.SELL?, o.clid, levels, o.size, take);
    }
    Conservation(o.clid, levels, o.size, price);
  }

  /** An order without size, or for a symbol without a book, gets nothing and changes nothing. */
  lemma {:induction false} NothingToMatch(books: Books, o: Order)
    requires o.size <= 0 || o.symbol !in books
    ensures MatchFills(books, o) == [] && MatchBooks(books, o) == books
  {
    if o.symbol in books {
      assert MatchSides(books[o.symbol], o.side, o.size) == books[o.symbol];
      assert books[o.symbol := books[o.symbol]] == books;
    }
  }

  /** Splitting an order in two changes neither the book nor the amount filled at any price; the
      limit prices of the parts do not matter, because matching never reads them. */
  lemma {:induction false} SplitOrder(books: Books, whole: Order, first: Order, second: Order, price: int)
    requires first.size > 0 && second.size > 0 && whole.size == first.size + second.size
    requires first.side == second.side == whole.side && first.symbol == second.symbol == whole.symbol
    ensures MatchBooks(MatchBooks(books, first), second) == MatchBooks(books, whole)
    ensures FilledAt(MatchFills(books, first), price) + FilledAt(MatchFills(MatchBooks(books, first), second), price)
            == FilledAt(MatchFills(books, whole), price)
  {
    var sb := SidesOf(books, whole.symbol);
    RestComposes(Opposite(sb, whole.side), first.size, second.size);
    FillsCompose(whole.clid, Opposite(sb, whole.side), first.size, second.size, price);
    ClidIsImmaterial(first.clid, whole.clid, Opposite(sb, whole.side), first.size, price);
    ClidIsImmaterial(second.clid, whole.clid, Rest(Opposite(sb, whole.side), first.size), second.size, price);
  }

  lemma {:induction false} ClidIsImmaterial(c: string, d: string, ls: seq<Level>, size: int, price: int)
    ensures FilledAt(Fills(c, ls, size), price) == FilledAt(Fills(d, ls, size), price)
  {
    if ls != [] && size > 0 {
      ClidIsImmaterial(c, d, ls[1..], if ls[0].size <= 0 then size else size - Min(ls[0].size, size), price);
    }
  }

  // ---- last write wins ------------------------------------------------------------------

  ghost function FeedAll(books: Books, log: seq<Event>): Books {
    if log == [] then books else Feed(FeedAll(books, log[..|log| - 1]), log[|log| - 1])
  }

  /** The size of the latest event for the symbol at the price. */
  ghost function Latest(log: seq<Event>, symbol: string, price: int): Option<int> {
    if log == [] then None
    else
      var ev := log[|log| - 1];
      if ev.symbol == symbol && ev.price == price then Some(ev.size)
      else Latest(log[..|log| - 1], symbol, price)
  }

  /** The asks are the last positive write at each price and nothing else; there are no bids. */
  ghost predicate IsLastWrite(books: Books, log: seq<Event>) {
    && (forall s :: s in books <==> s != "" && exists i :: 0 <= i < |log| && log[i].symbol == s)
    && (forall s | s in books :: books[s].bids == [] && Sorted(false, books[s].asks))
    && (forall s, p | s in books :: LevelIsLatest(books, log, s, p))
  }

  ghost predicate LevelIsLatest(books: Books, log: seq<Event>, s: string, p: int)
    requires s in books
  {
    var asks, latest := AsMap(books[s].asks), Latest(log, s, p);
    if latest.Some? && latest.value > 0 then p in asks && asks[p] == latest.value else p !in asks
  }

  lemma {:induction false} LatestKnowsSymbol(log: seq<Event>, symbol: string, price: int)
    ensures Latest(log, symbol, price).Some? ==> exists i :: 0 <= i < |log| && log[i].symbol == symbol
  {
    if log != [] {
      var ev := log[|log| - 1];
      if !(ev.symbol == symbol && ev.price == price) {
        LatestKnowsSymbol(log[..|log| - 1], symbol, price);
        if Latest(log[..|log| - 1], symbol, price).Some? {
          var i :| 0 <= i < |log| - 1 && log[..|log| - 1][i].symbol == symbol;
          assert log[i].symbol == symbol;
        }
      }
    }
  }

  lemma {:induction false} LastWriteWins(log: seq<Event>)
    ensures IsLastWrite(FeedAll(map[], log), log)
  {
    if log != [] {
      LastWriteWins(log[..|log| - 1]);
      LastWriteStep(FeedAll(map[], log[..|log| - 1]), log[..|log| - 1], log[|log| - 1]);
      assert log == log[..|log| - 1] + [log[|log| - 1]];
    }
  }

  lemma LastWriteStep(books: Books, log: seq<Event>, ev: Event)
    requires IsLastWrite(books, log)
    ensures IsLastWrite(Feed(books, ev), log + [ev])
  {
    var r, log' := Feed(books, ev), log + [ev];
    assert log'[..|log' | - 1] == log;
    assert forall i | 0 <= i < |log| :: log'[i] == log[i];
    assert log'[|log|] == ev;
    forall s ensures s in r <==> s != "" && exists i :: 0 <= i < |log'| && log'[i].symbol == s {
      if s in books {
        var i :| 0 <= i < |log| && log[i].symbol == s;
        assert log'[i].symbol == s;
      }
    }
    if ev.symbol != "" {
      var asks := SidesOf(books, ev.symbol).asks;
      EraseIsRemoval(false, asks, ev.price);
      PutIsUpdate(false, asks, ev.price, ev.size);
    }
    forall s, p | s in r ensures LevelIsLatest(r, log', s, p) {
      assert Latest(log', s, p) == if ev.symbol == s && ev.price == p then Some(ev.size) else Latest(log, s, p);
      if s in books {
        assert LevelIsLatest(books, log, s, p);
      } else {
        LatestKnowsSymbol(log, s, p);
      }
    }
  }

  lemma {:induction false} FeedAllConcat(books: Books, a: seq<Event>, b: seq<Event>)
    ensures FeedAll(books, a + b) == FeedAll(FeedAll(books, a), b)
    decreases |b|
  {
    if b == [] {
      assert a + b == a;
    } else {
      assert (a + b)[..|a + b| - 1] == a + b[..|b| - 1];
      FeedAllConcat(books, a, b[..|b| - 1]);
    }
  }

  lemma {:induction false} LatestOfTwice(log: seq<Event>, later: seq<Event>, symbol: string, price: int)
    ensures Latest(log + later, symbol, price) ==
      if Latest(later, symbol, price).Some? then Latest(later, symbol, price) else Latest(log, symbol, price)
    decreases |later|
  {
    if later == [] {
      assert log + later == log;
    } else {
      assert (log + later)[..|log + later| - 1] == log + later[..|later| - 1];
      LatestOfTwice(log, later[..|later| - 1], symbol, price);
    }
  }

  /** A fed book is determined by its log's latest writes. */
  lemma {:induction false} LastWriteDetermines(a: Books, b: Books, la: seq<Event>, lb: seq<Event>)
    requires IsLastWrite(a, la) && IsLastWrite(b, lb) && a.Keys == b.Keys
    requires forall s, p :: Latest(la, s, p) == Latest(lb, s, p)
    ensures a == b
  {
    forall s | s in a ensures a[s] == b[s] {
      forall p ensures p in AsMap(a[s].asks) <==> p in AsMap(b[s].asks) {
        assert LevelIsLatest(a, la, s, p) && LevelIsLatest(b, lb, s, p);
      }
      forall p | p in AsMap(a[s].asks) ensures AsMap(a[s].asks)[p] == AsMap(b[s].asks)[p] {
        assert LevelIsLatest(a, la, s, p) && LevelIsLatest(b, lb, s, p);
      }
      assert AsMap(a[s].asks) == AsMap(b[s].asks);
      SortedIsUnique(false, a[s].asks, b[s].asks);
    }
  }

  /** Replaying a whole log a second time leaves the book unchanged. */
  lemma {:induction false} ReplayIsIdempotent(log: seq<Event>)
    ensures FeedAll(FeedAll(map[], log), log) == FeedAll(map[], log)
  {
    FeedAllConcat(map[], log, log);
    LastWriteWins(log);
    LastWriteWins(log + log);
    var once, twice := FeedAll(map[], log), FeedAll(map[], log + log);
    forall s, p ensures Latest(log + log, s, p) == Latest(log, s, p) {
      LatestOfTwice(log, log, s, p);
    }
    forall s ensures s in once <==> s in twice {
      if s in once {
        var i :| 0 <= i < |log| && log[i].symbol == s;
        assert (log + log)[i].symbol == s;
      }
      if s in twice {
        var i :| 0 <= i < |log + log| && (log + log)[i].symbol == s;
        assert log[if i < |log| then i else i - |log|].symbol == s;
      }
    }
    LastWriteDetermines(twice, once, log + log, log);
  }
}
