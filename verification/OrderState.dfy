/** The order manager's data and the effect of each of its critical sections
    (cpp/src/order_manager.cpp, cpp/include/order_manager.h). OrderManager runs them one call at a
    time; ManagerProtocol interleaves them. */
module OrderState {
  import opened Matching
  import opened OrderBook

  datatype Status = NEW | OPEN | PARTIAL | FILLED | CANCELED

  datatype Entry = Entry(side: Side, symbol: string, price: int, original: int, remaining: int, status: Status)

  /** The orders by client id. */
  type Orders = map<string, Entry>

  /** An unsigned 64-bit size. */
  type Word = n: nat | n < 0x1_0000_0000_0000_0000

  /** RiskPolicy, plus whether the manager has a book; a limit of 0 means no limit. */
  datatype Policy = Policy(maxOrderSize: Word, maxOpenOrders: nat, hasBook: bool)

  datatype Reason = BadSize | SizeExceedsLimit | MaxOpenOrdersExceeded | NoOrderbook

  /** The metrics that the manager updates. */
  datatype Counters = Counters(accepted: nat, rejected: nat, fillRecords: nat, filledVolume: int,
                               canceled: nat, openGauge: nat)

  /** static_cast<int64_t> of an unsigned 64-bit value. */
  function AsSigned(n: Word): int { if n < 0x8000_0000_0000_0000 then n else n - 0x1_0000_0000_0000_0000 }

  /** The checks that need no lock. */
  function SizeProblem(policy: Policy, size: int): (bool, Reason) {
    if size <= 0 then (true, BadSize)
    else if policy.maxOrderSize > 0 && AsSigned(policy.maxOrderSize) < size then (true, SizeExceedsLimit)
    else (false, BadSize)
  }

  predicate CountsAsOpen(s: Status) { s == OPEN || s == PARTIAL }

  predicate CountsAsLive(s: Status) { s == OPEN || s == PARTIAL || s == NEW }

  ghost function OpenKeys(orders: Orders): set<string> {
    set k | k in orders && CountsAsOpen(orders[k].status)
  }

  ghost function LiveKeys(orders: Orders): set<string> {
    set k | k in orders && CountsAsLive(orders[k].status)
  }

  ghost predicate LimitReached(policy: Policy, orders: Orders) {
    policy.maxOpenOrders > 0 && |OpenKeys(orders)| >= policy.maxOpenOrders
  }

  function FreshEntry(o: Order): Entry { Entry(o.side, o.symbol, o.price, o.size, o.size, NEW) }

  /** orders_.emplace: a client id that is already there keeps its entry. */
  function Insert(orders: Orders, o: Order): Orders {
    if o.clid in orders then orders else orders[o.clid := FreshEntry(o)]
  }

  /** The update after matching. */
  function SettledEntry(e: Entry, filled: bool, consumed: int): Entry {
    if !filled then e.(status := OPEN)
    else if e.remaining - consumed <= 0 then e.(remaining := 0, status := FILLED)
    else e.(remaining := e.remaining - consumed, status := PARTIAL)
  }

  ghost function Settle(orders: Orders, clid: string, fills: seq<Fill>): Orders {
    if clid in orders then orders[clid := SettledEntry(orders[clid], fills != [], Filled(fills))] else orders
  }

  predicate Cancelable(orders: Orders, clid: string) {
    clid in orders && orders[clid].status != FILLED && orders[clid].status != CANCELED
  }

  function CanceledEntry(e: Entry): Entry { e.(remaining := 0, status := CANCELED) }

  function Cancel(orders: Orders, clid: string): Orders {
    if Cancelable(orders, clid) then orders[clid := CanceledEntry(orders[clid])] else orders
  }

  ghost function WithGauge(c: Counters, orders: Orders): Counters {
    c.(openGauge := |LiveKeys(orders)|)
  }

  ghost function CountFills(c: Counters, fills: seq<Fill>): Counters {
    c.(fillRecords := c.fillRecords + |fills|, filledVolume := c.filledVolume + Filled(fills))
  }

  /** Updating one entry moves at most that key. */
  lemma KeysAfterUpdate(orders: Orders, k: string, e: Entry)
    ensures OpenKeys(orders[k := e]) == OpenKeys(orders) - {k} + (if CountsAsOpen(e.status) then {k} else {})
    ensures LiveKeys(orders[k := e]) == LiveKeys(orders) - {k} + (if CountsAsLive(e.status) then {k} else {})
  {
  }
}
