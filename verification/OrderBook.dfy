/** The L2 book of every symbol (cpp/src/order_book.cpp). Each public call holds the book's mutex
    throughout, so a call is one step; BookRuns reasons about sequences of calls. */
module OrderBook {
  import opened Prelude
  import opened Events
  import opened Levels
  import opened Matching

  datatype Side = BUY | SELL

  datatype Order = Order(clid: string, side: Side, symbol: string, price: int, size: int)

  datatype SideBook = SideBook(bids: seq<Level>, asks: seq<Level>)

  type Books = map<string, SideBook>

  const EMPTY_SIDES := SideBook([], [])

  /** books[symbol], which the original default-constructs when absent. */
  function SidesOf(books: Books, symbol: string): SideBook {
    if symbol in books then books[symbol] else EMPTY_SIDES
  }

  /** The feed rule for one symbol: no size removes the price from both sides; a price at or below
      the best bid is a bid; anything else is an ask. */
  function FeedSides(sb: SideBook, price: int, size: int): SideBook {
    if size <= 0 then SideBook(Erase(sb.bids, price), Erase(sb.asks, price))
    else if sb.bids != [] && price <= sb.bids[0].price then sb.(bids := Put(true, sb.bids, price, size))
    else sb.(asks := Put(false, sb.asks, price, size))
  }

  function Feed(books: Books, ev: Event): Books {
    if ev.symbol == "" then books
    else books[ev.symbol := FeedSides(SidesOf(books, ev.symbol), ev.price, ev.size)]
  }

  /** The side an order is matched against. */
  function Opposite(sb: SideBook, side: Side): seq<Level> {
    if side.BUY? then sb.asks else sb.bids
  }

  ghost function MatchFills(books: Books, o: Order): seq<Fill> {
    Fills(o.clid, Opposite(SidesOf(books, o.symbol), o.side), o.size)
  }

  ghost function MatchSides(sb: SideBook, side: Side, size: int): SideBook {
    if side.BUY? then sb.(asks := Rest(sb.asks, size)) else sb.(bids := Rest(sb.bids, size))
  }

  ghost function MatchBooks(books: Books, o: Order): Books {
    if o.symbol in books then books[o.symbol := MatchSides(books[o.symbol], o.side, o.size)] else books
  }

  ghost predicate WellSorted(books: Books) {
    forall s | s in books :: Sorted(true, books[s].bids) && Sorted(false, books[s].asks)
  }

  class OrderBook {
    var books: Books

    constructor ()
      ensures books == map[]
    {
      books := map[];
    }

    method ApplyEvent(ev: Event)
      modifies this
      ensures books == Feed(old(books), ev)
    {
      if ev.symbol == "" { return; }
      var sb := SidesOf(books, ev.symbol);
      if ev.size <= 0 {
        sb := SideBook(Erase(sb.bids, ev.price), Erase(sb.asks, ev.price));
        books := books[ev.symbol := sb];
        return;
      }
      if sb.bids != [] {
        var bestBid := sb.bids[0].price;
        if ev.price <= bestBid {
          sb := sb.(bids := Put(true, sb.bids, ev.price, ev.size));
          books := books[ev.symbol := sb];
          return;
        }
      }
      sb := sb.(asks := Put(false, sb.asks, ev.price, ev.size));
      books := books[ev.symbol := sb];
    }

    /** The greatest bid and the least ask; None stands for NaN. */
    method TopOfBook(symbol: string) returns (bid: Option<int>, ask: Option<int>)
      requires WellSorted(books)
      ensures bid.None? <==> symbol !in books || books[symbol].bids == []
      ensures ask.None? <==> symbol !in books || books[symbol].asks == []
      ensures bid.Some? ==> (exists l :: l in books[symbol].bids && l.price == bid.value)
                            && forall l | l in books[symbol].bids :: l.price <= bid.value
      ensures ask.Some? ==> (exists l :: l in books[symbol].asks && l.price == ask.value)
                            && forall l | l in books[symbol].asks :: ask.value <= l.price
    {
      if symbol !in books { return None, None; }
      var sb := books[symbol];
      bid, ask := Best(sb.bids), Best(sb.asks);
      if sb.bids != [] { assert sb.bids[0] in sb.bids; }
      if sb.asks != [] { assert sb.asks[0] in sb.asks; }
    }

    method MatchOrder(o: Order) returns (fills: seq<Fill>)
      modifies this
      ensures books == MatchBooks(old(books), o)
      ensures fills == MatchFills(old(books), o)
    {
      fills := [];
      if o.symbol !in books { return; }
      var sb := books[o.symbol];
      if o.size <= 0 {
        assert books == books[o.symbol := sb];
        return;
      }
      if o.side == BUY {
        var asks;
        fills, asks := MatchSide(o.clid, sb.asks, o.size);
        books := books[o.symbol := sb.(asks := asks)];
      } else {
        var bids;
        fills, bids := MatchSide(o.clid, sb.bids, o.size);
        books := books[o.symbol := sb.(bids := bids)];
      }
    }

    /** The helper for tests: it sets or removes one price on the named side and nothing else; it does
        not look at the other side, and so can cross the book. */
    method SetLevel(symbol: string, sideBuy: bool, price: int, size: int)
      requires WellSorted(books)
      modifies this
      ensures WellSorted(books) && books.Keys == old(books).Keys + {symbol}
      ensures forall s | s in old(books) && s != symbol :: books[s] == old(books)[s]
      ensures var sb, sb' := SidesOf(old(books), symbol), books[symbol];
        && AsMap(sb'.bids) == (if sideBuy then SetAt(AsMap(sb.bids), price, size) else AsMap(sb.bids))
        && AsMap(sb'.asks) == (if sideBuy then AsMap(sb.asks) else SetAt(AsMap(sb.asks), price, size))
    {
      var sb := SidesOf(books, symbol);
      if sideBuy {
        SetOneSide(true, sb.bids, price, size);
        if size <= 0 { sb := sb.(bids := Erase(sb.bids, price)); }
        else { sb := sb.(bids := Put(true, sb.bids, price, size)); }
      } else {
        SetOneSide(false, sb.asks, price, size);
        if size <= 0 { sb := sb.(asks := Erase(sb.asks, price)); }
        else { sb := sb.(asks := Put(false, sb.asks, price, size)); }
      }
      books := books[symbol := sb];
    }
  }

  /** The price-to-size map with one price set, or removed when there is no size. */
  ghost function SetAt(side: map<int, int>, price: int, size: int): map<int, int> {
    if size <= 0 then side - {price} else side[price := size]
  }

  lemma {:induction false} SetOneSide(desc: bool, ls: seq<Level>, price: int, size: int)
    requires Sorted(desc, ls)
    ensures var r := if size <= 0 then Erase(ls, price) else Put(desc, ls, price, size);
      Sorted(desc, r) && AsMap(r) == SetAt(AsMap(ls), price, size)
  {
    if size <= 0 { EraseIsRemoval(desc, ls, price); } else { PutIsUpdate(desc, ls, price, size); }
  }
}
