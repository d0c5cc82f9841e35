/** The order manager, one call at a time (cpp/src/order_manager.cpp). */
module OrderManager {
  import opened Prelude
  import opened Matching
  import opened OrderBook
  import opened OrderState

  datatype SubmitResult = Rejected(reason: Reason) | Accepted(fills: seq<Fill>)

  /** What a submit that runs alone returns and leaves behind. */
  ghost function SubmitOutcome(policy: Policy, orders: Orders, books: Books, o: Order): SubmitResult {
    var (bad, why) := SizeProblem(policy, o.size);
    if bad then Rejected(why)
    else if LimitReached(policy, orders) then Rejected(MaxOpenOrdersExceeded)
    else if !policy.hasBook then Rejected(NoOrderbook)
    else Accepted(MatchFills(books, o))
  }

  ghost function OrdersAfter(orders: Orders, o: Order, r: SubmitResult): Orders {
    match r
    case Rejected(_) => orders
    case Accepted(fills) => Settle(Insert(orders, o), o.clid, fills)
  }

  ghost function CountersAfter(c: Counters, orders: Orders, o: Order, r: SubmitResult): Counters {
    match r
    case Rejected(_) => c.(rejected := c.rejected + 1)
    case Accepted(fills) =>
      var counted := CountFills(WithGauge(c, OrdersAfter(orders, o, r)), fills);
      counted.(accepted := counted.accepted + 1)
  }

  /** The orders that count against the limit. */
  ghost function OpenOrPartial(orders: Orders): set<string> {
    set k | k in orders && (orders[k].status == OPEN || orders[k].status == PARTIAL)
  }

  /** Which submits are accepted, and for which reason the others are not: each reason is given
      exactly when its own check fails and all earlier ones pass. */
  lemma {:induction false} OutcomeExactlyWhen(policy: Policy, orders: Orders, books: Books, o: Order)
    ensures var r := SubmitOutcome(policy, orders, books, o);
      var limit, maxOpen, open := policy.maxOrderSize, policy.maxOpenOrders, |OpenOrPartial(orders)|;
      var sizeFits := limit == 0 || o.size <= limit < 0x8000_0000_0000_0000;
      var hasRoom := maxOpen == 0 || open < maxOpen;
      && (r.Accepted? <==> o.size > 0 && sizeFits && hasRoom && policy.hasBook)
      && (r == Rejected(BadSize) <==> o.size <= 0)
      && (r == Rejected(SizeExceedsLimit) <==> o.size > 0 && !sizeFits)
      && (r == Rejected(MaxOpenOrdersExceeded) <==> o.size > 0 && sizeFits && !hasRoom)
      && (r == Rejected(NoOrderbook) <==> o.size > 0 && sizeFits && hasRoom && !policy.hasBook)
      && (r.Accepted? ==> r.fills == MatchFills(books, o))
  {
    assert OpenOrPartial(orders) == OpenKeys(orders);
  }

  /** What a submit leaves behind. Rejected, it adds one to the rejected counter and nothing else.
      Accepted under a fresh client id, its entry is the order itself with what was not filled
      remaining; under a used one, the first order's entry takes the fills. */
  lemma {:induction false} SubmitLeaves(orders: Orders, c: Counters, o: Order, fills: seq<Fill>, reason: Reason)
    requires o.size > 0 && 0 <= Filled(fills) <= o.size && (Filled(fills) == 0 <==> fills == [])
    ensures OrdersAfter(orders, o, Rejected(reason)) == orders
    ensures CountersAfter(c, orders, o, Rejected(reason))
            == Counters(c.accepted, c.rejected + 1, c.fillRecords, c.filledVolume, c.canceled, c.openGauge)
    ensures var n, r := Filled(fills), OrdersAfter(orders, o, Accepted(fills));
      && r.Keys == orders.Keys + {o.clid} && (forall k | k in orders && k != o.clid :: r[k] == orders[k])
      && if o.clid !in orders then
           r[o.clid] == Entry(o.side, o.symbol, o.price, o.size, o.size - n,
                              if n == 0 then OPEN else if n < o.size then PARTIAL else FILLED)
         else
           var e := orders[o.clid];
           r[o.clid] == if n == 0 then e.(status := OPEN)
                        else if n < e.remaining then e.(remaining := e.remaining - n, status := PARTIAL)
                        else e.(remaining := 0, status := FILLED)
    ensures var d, r := CountersAfter(c, orders, o, Accepted(fills)), OrdersAfter(orders, o, Accepted(fills));
      d == Counters(c.accepted + 1, c.rejected, c.fillRecords + |fills|, c.filledVolume + Filled(fills), c.canceled,
                    |set k | k in r && (r[k].status == NEW || r[k].status == OPEN || r[k].status == PARTIAL)|)
  {
    var r := OrdersAfter(orders, o, Accepted(fills));
    assert LiveKeys(r) == set k | k in r && (r[k].status == NEW || r[k].status == OPEN || r[k].status == PARTIAL);
  }

  lemma CountOne(wanted: set<string>, todo: set<string>, k: string)
    requires k in todo
    ensures |wanted - (todo - {k})| == |wanted - todo| + (if k in wanted then 1 else 0)
  {
    assert wanted - (todo - {k}) == (wanted - todo) + (if k in wanted then {k} else {});
  }

  class OrderManager {
    const policy: Policy
    const book: OrderBook
    var orders: Orders
    var counters: Counters

    /** The book is unused when the policy says there is none. */
    constructor (policy: Policy, book: OrderBook)
      ensures this.policy == policy && this.book == book && orders == map[]
      ensures counters == Counters(0, 0, 0, 0, 0, 0)
    {
      this.policy := policy;
      this.book := book;
      orders := map[];
      counters := Counters(0, 0, 0, 0, 0, 0);
    }

    /** The counting loop of every critical section; NEW orders count for the gauge only. */
    method CountOrders(withNew: bool) returns (n: nat)
      ensures n == if withNew then |LiveKeys(orders)| else |OpenKeys(orders)|
    {
      ghost var wanted := if withNew then LiveKeys(orders) else OpenKeys(orders);
      var todo := orders.Keys;
      n := 0;
      assert wanted - todo == {};
      while todo != {}
        invariant todo <= orders.Keys && n == |wanted - todo|
        decreases |todo|
      {
        var k :| k in todo;
        var counts := if withNew then CountsAsLive(orders[k].status) else CountsAsOpen(orders[k].status);
        CountOne(wanted, todo, k);
        todo := todo - {k};
        if counts { n := n + 1; }
      }
      assert wanted - {} == wanted;
    }

    method OpenOrderCount() returns (n: nat)
      ensures n == |OpenOrPartial(orders)|
    {
      n := CountOrders(false);
      assert OpenOrPartial(orders) == OpenKeys(orders);
    }

    /** Second critical section: the new entry and the gauge. */
    method InsertOrder(o: Order)
      modifies this
      ensures orders == Insert(old(orders), o) && counters == WithGauge(old(counters), orders)
    {
      if o.clid !in orders {
        orders := orders[o.clid := Entry(o.side, o.symbol, o.price, o.size, o.size, NEW)];
      }
      var open := CountOrders(true);
      counters := counters.(openGauge := open);
    }

    method TotalSize(fills: seq<Fill>) returns (consumed: int)
      ensures consumed == Filled(fills)
    {
      consumed := 0;
      ghost var todo := fills;
      for i := 0 to |fills|
        invariant todo == fills[i..] && consumed + Filled(todo) == Filled(fills)
      {
        consumed := consumed + fills[i].size;
        todo := todo[1..];
      }
    }

    /** Third critical section: the entry after matching, and the gauge. */
    method SettleOrder(clid: string, fills: seq<Fill>)
      modifies this
      ensures orders == Settle(old(orders), clid, fills) && counters == WithGauge(old(counters), orders)
    {
      if clid in orders {
        var e := orders[clid];
        if fills != [] {
          var consumed := TotalSize(fills);
          var remaining := e.remaining - consumed;
          if remaining <= 0 {
            orders := orders[clid := e.(remaining := 0, status := FILLED)];
          } else {
            orders := orders[clid := e.(remaining := remaining, status := PARTIAL)];
          }
        } else {
          orders := orders[clid := e.(status := OPEN)];
        }
      }
      var open := CountOrders(true);
      counters := counters.(openGauge := open);
    }

    method SubmitOrder(o: Order) returns (r: SubmitResult)
      modifies this, book
      ensures r == SubmitOutcome(policy, old(orders), old(book.books), o)
      ensures orders == OrdersAfter(old(orders), o, r)
      ensures counters == CountersAfter(old(counters), old(orders), o, r)
      ensures book.books == if r.Accepted? then MatchBooks(old(book.books), o) else old(book.books)
      ensures r.Accepted? <==>
        && o.size > 0 && (policy.maxOrderSize == 0 || o.size <= policy.maxOrderSize < 0x8000_0000_0000_0000)
        && (policy.maxOpenOrders == 0 || |OpenOrPartial(old(orders))| < policy.maxOpenOrders) && policy.hasBook
    {
      OutcomeExactlyWhen(policy, orders, book.books, o);
      if o.size <= 0 {
        counters := counters.(rejected := counters.rejected + 1);
        return Rejected(BadSize);
      }
      if policy.maxOrderSize > 0 && AsSigned(policy.maxOrderSize) < o.size {
        counters := counters.(rejected := counters.rejected + 1);
        return Rejected(SizeExceedsLimit);
      }
      var open := CountOrders(false);
      if policy.maxOpenOrders > 0 && open >= policy.maxOpenOrders {
        counters := counters.(rejected := counters.rejected + 1);
        return Rejected(MaxOpenOrdersExceeded);
      }
      if !policy.hasBook {
        counters := counters.(rejected := counters.rejected + 1);
        return Rejected(NoOrderbook);
      }
      InsertOrder(o);
      var fills := book.MatchOrder(o);
      SettleOrder(o.clid, fills);
      ReportFills(fills);
      counters := counters.(accepted := counters.accepted + 1);
      r := Accepted(fills);
    }

    /** The fill metrics, skipped when there are no fills. */
    method ReportFills(fills: seq<Fill>)
      modifies this`counters
      ensures counters == CountFills(old(counters), fills)
    {
      if fills != [] {
        var volume := TotalSize(fills);
        counters := counters.(fillRecords := counters.fillRecords + |fills|,
                              filledVolume := counters.filledVolume + volume);
      }
    }

    /** Returns the canceled size, or None when the order is unknown, filled or already canceled. */
    method CancelOrder(clid: string) returns (canceled: Option<int>)
      modifies this
      ensures canceled.Some? <==> clid in old(orders) && old(orders[clid].status) in {NEW, OPEN, PARTIAL}
      ensures canceled.None? ==> orders == old(orders) && counters == old(counters)
      ensures canceled.Some? ==>
        && canceled.value == old(orders[clid].remaining)
        && orders == old(orders)[clid := old(orders[clid]).(remaining := 0, status := CANCELED)]
        && counters == old(counters).(openGauge := |LiveKeys(orders)|, canceled := old(counters.canceled) + 1)
      ensures orders == Cancel(old(orders), clid)
    {
      if clid !in orders { return None; }
      var e := orders[clid];
      if e.status == FILLED || e.status == CANCELED { return None; }
      canceled := Some(e.remaining);
      orders := orders[clid := e.(remaining := 0, status := CANCELED)];
      var open := CountOrders(true);
      counters := counters.(openGauge := open, canceled := counters.canceled + 1);
    }
  }
}
