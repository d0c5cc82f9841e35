/** Submits and cancels under concurrency (cpp/src/order_manager.cpp). Several submits are in
    flight; each critical section, the call to match_order and the final metrics are one step each,
    and the feed may change the book between any two of them. */
module ManagerProtocol {
  import opened Prelude
  import opened Events
  import opened Matching
  import opened OrderBook
  import opened OrderState

  /** How far a submit in flight has come. */
  datatype Flight =
    | Checking(order: Order)                        // sizes accepted, limit not yet looked at
    | Passed(order: Order)                          // below the limit when it looked
    | Inserted(order: Order)                        // entry emplaced, lock released
    | Matched(order: Order, fills: seq<Fill>)       // book consumed, entry not yet updated
    | Settled(order: Order, fills: seq<Fill>)       // entry updated, metrics pending

  /** maxInFlight bounds the submits that run at once. filledFor and canceledFor record what the book
      and the cancels gave out per client id; used are the client ids that were ever submitted. */
  datatype Sys = Sys(policy: Policy, maxInFlight: nat, orders: Orders, books: Books, counters: Counters,
                     flights: map<nat, Flight>, started: nat, used: set<string>,
                     filledFor: map<string, int>, canceledFor: map<string, int>)

  datatype Action =
    | Begin(tid: nat, order: Order) | CheckLimit(tid: nat) | InsertEntry(tid: nat) | MatchBook(tid: nat)
    | SettleEntry(tid: nat) | Finish(tid: nat) | CancelOrder(clid: string) | FeedBook(ev: Event)

  function Get(m: map<string, int>, k: string): int { if k in m then m[k] else 0 }

  ghost function Reject(s: Sys): Sys { s.(counters := s.counters.(rejected := s.counters.rejected + 1)) }

  ghost function At(s: Sys, tid: nat, f: Flight): Sys { s.(flights := s.flights[tid := f]) }

  ghost function Leave(s: Sys, tid: nat): Sys { s.(flights := s.flights - {tid}) }

  ghost function WithOrders(s: Sys, orders: Orders): Sys {
    s.(orders := orders, counters := WithGauge(s.counters, orders))
  }

  ghost function AfterBegin(s: Sys, tid: nat, o: Order): Sys
    requires tid !in s.flights
  {
    var b := s.(started := s.started + 1, used := s.used + {o.clid});
    if SizeProblem(s.policy, o.size).0 then Reject(b) else At(b, tid, Checking(o))
  }

  ghost function AfterCheck(s: Sys, tid: nat, o: Order): Sys {
    if LimitReached(s.policy, s.orders) then Reject(Leave(s, tid)) else At(s, tid, Passed(o))
  }

  ghost function AfterInsert(s: Sys, tid: nat, o: Order): Sys {
    if !s.policy.hasBook then Reject(Leave(s, tid))
    else WithOrders(At(s, tid, Inserted(o)), Insert(s.orders, o))
  }

  ghost function AfterMatch(s: Sys, tid: nat, o: Order): Sys {
    var fills := MatchFills(s.books, o);
    At(s, tid, Matched(o, fills)).(
      books := MatchBooks(s.books, o),
      filledFor := s.filledFor[o.clid := Get(s.filledFor, o.clid) + Filled(fills)])
  }

  ghost function AfterSettle(s: Sys, tid: nat, o: Order, fills: seq<Fill>): Sys {
    WithOrders(At(s, tid, Settled(o, fills)), Settle(s.orders, o.clid, fills))
  }

  ghost function AfterFinish(s: Sys, tid: nat, fills: seq<Fill>): Sys {
    var c := CountFills(s.counters, fills);
    Leave(s, tid).(counters := c.(accepted := c.accepted + 1))
  }

  ghost function AfterCancel(s: Sys, clid: string): Sys
    requires Cancelable(s.orders, clid)
  {
    var r := WithOrders(s, Cancel(s.orders, clid));
    r.(counters := r.counters.(canceled := r.counters.canceled + 1),
       canceledFor := s.canceledFor[clid := Get(s.canceledFor, clid) + s.orders[clid].remaining])
  }

  /** Whether the action fits the program counters. */
  ghost predicate Fits(s: Sys, a: Action) {
    match a
    case Begin(t, _) => t !in s.flights && |s.flights| < s.maxInFlight
    case CheckLimit(t) => t in s.flights && s.flights[t].Checking?
    case InsertEntry(t) => t in s.flights && s.flights[t].Passed?
    case MatchBook(t) => t in s.flights && s.flights[t].Inserted?
    case SettleEntry(t) => t in s.flights && s.flights[t].Matched?
    case Finish(t) => t in s.flights && s.flights[t].Settled?
    case CancelOrder(clid) => Cancelable(s.orders, clid)
    case FeedBook(_) => true
  }

  /** One step. An action that does not fit changes nothing. */
  ghost function Next(s: Sys, a: Action): Sys {
    if !Fits(s, a) then s
    else match a
      case Begin(t, o) => AfterBegin(s, t, o)
      case CheckLimit(t) => AfterCheck(s, t, s.flights[t].order)
      case InsertEntry(t) => AfterInsert(s, t, s.flights[t].order)
      case MatchBook(t) => AfterMatch(s, t, s.flights[t].order)
      case SettleEntry(t) => AfterSettle(s, t, s.flights[t].order, s.flights[t].fills)
      case Finish(t) => AfterFinish(s, t, s.flights[t].fills)
      case CancelOrder(clid) => AfterCancel(s, clid)
      case FeedBook(ev) => s.(books := Feed(s.books, ev))
  }

  ghost function Exec(s: Sys, actions: seq<Action>): Sys
    decreases |actions|
  {
    if actions == [] then s else Exec(Next(s, actions[0]), actions[1..])
  }

  ghost predicate Init(s: Sys) {
    && s.orders == map[] && s.flights == map[] && s.started == 0 && s.used == {}
    && s.counters == Counters(0, 0, 0, 0, 0, 0) && s.filledFor == map[] && s.canceledFor == map[]
  }

  // ---- cancels and entries ----------------------------------------------------------

  ghost predicate IsLive(orders: Orders, c: string) {
    c in orders && (orders[c].status == NEW || orders[c].status == OPEN || orders[c].status == PARTIAL)
  }

  /** In every state, a cancel of a NEW, OPEN or PARTIAL order leaves it CANCELED with nothing
      remaining, takes it off the live ones and credits what remained, and changes nothing else. */
  lemma {:induction false} CancelEndsLive(s: Sys, c: string)
    requires IsLive(s.orders, c)
    ensures var r := Next(s, CancelOrder(c));
      && r.orders == s.orders[c := s.orders[c].(remaining := 0, status := CANCELED)]
      && r.canceledFor == s.canceledFor[c := Get(s.canceledFor, c) + s.orders[c].remaining]
      && r.counters == s.counters.(openGauge := |LiveKeys(r.orders)|, canceled := s.counters.canceled + 1)
      && r.flights == s.flights && r.books == s.books && r.filledFor == s.filledFor && r.started == s.started
  {
    assert Next(s, CancelOrder(c)) == AfterCancel(s, c);
  }

  lemma {:induction false} CancelLeavesLive(orders: Orders, c: string)
    requires IsLive(orders, c)
    ensures var r := orders[c := orders[c].(remaining := 0, status := CANCELED)];
      c in LiveKeys(orders) && LiveKeys(r) == LiveKeys(orders) - {c}
  {
    KeysAfterUpdate(orders, c, orders[c].(remaining := 0, status := CANCELED));
  }

  /** A cancel of any other client id changes nothing at all. */
  lemma {:induction false} CancelSparesOthers(s: Sys, c: string)
    requires !IsLive(s.orders, c)
    ensures Next(s, CancelOrder(c)) == s
  {
    assert !Fits(s, CancelOrder(c));
  }

  /** A first submit of a client id enters the order as it is, untouched; a second one enters nothing. */
  lemma {:induction false} InsertEntersTheOrder(s: Sys, t: nat, o: Order)
    requires t in s.flights && s.flights[t] == Passed(o) && s.policy.hasBook
    ensures var r := Next(s, InsertEntry(t));
      r.orders == if o.clid in s.orders then s.orders
                  else s.orders[o.clid := Entry(o.side, o.symbol, o.price, o.size, o.size, NEW)]
  {
  }

  /** Who an order is and how large it was never changes, and no order is ever forgotten. */
  ghost predicate SameOrder(e: Entry, f: Entry) {
    e.side == f.side && e.symbol == f.symbol && e.price == f.price && e.original == f.original
  }

  lemma {:induction false} EntryStays(s: Sys, a: Action, c: string)
    requires c in s.orders
    ensures c in Next(s, a).orders && SameOrder(s.orders[c], Next(s, a).orders[c])
  {
  }

  lemma {:induction false} EntriesStay(s: Sys, actions: seq<Action>, c: string)
    requires c in s.orders
    ensures c in Exec(s, actions).orders && SameOrder(s.orders[c], Exec(s, actions).orders[c])
    decreases |actions|
  {
    if actions != [] {
      EntryStays(s, actions[0], c);
      EntriesStay(Next(s, actions[0]), actions[1..], c);
    }
  }

  // ---- the open-order limit ---------------------------------------------------------

  /** Past the check, entry not yet marked open. */
  predicate PastCheck(f: Flight) { f.Passed? || f.Inserted? || f.Matched? }

  ghost function PastKeys(flights: map<nat, Flight>): set<nat> {
    set t | t in flights && PastCheck(flights[t])
  }

  ghost predicate LimitInv(s: Sys) {
    && |s.flights| <= s.maxInFlight
    && (s.policy.maxOpenOrders > 0 && s.maxInFlight > 0 ==>
          |OpenKeys(s.orders)| + |PastKeys(s.flights)| <= s.policy.maxOpenOrders + s.maxInFlight - 1)
  }

  lemma FlightCard(flights: map<nat, Flight>, t: nat, f: Flight)
    ensures |flights[t := f]| == |flights| + (if t in flights then 0 else 1)
    ensures |flights - {t}| == |flights| - (if t in flights then 1 else 0)
  {
    assert flights[t := f].Keys == flights.Keys + {t} && (flights - {t}).Keys == flights.Keys - {t};
    assert |flights[t := f].Keys| == |flights[t := f]| && |(flights - {t}).Keys| == |flights - {t}|;
  }

  lemma PastCard(flights: map<nat, Flight>, t: nat, f: Flight)
    ensures var was := if t in PastKeys(flights) then 1 else 0;
      && |PastKeys(flights[t := f])| == |PastKeys(flights)| - was + (if PastCheck(f) then 1 else 0)
      && |PastKeys(flights - {t})| == |PastKeys(flights)| - was
  {
    PastAfterUpdate(flights, t, f);
    PastAfterRemoval(flights, t);
  }

  lemma PastAfterUpdate(flights: map<nat, Flight>, t: nat, f: Flight)
    ensures PastKeys(flights[t := f]) == PastKeys(flights) - {t} + (if PastCheck(f) then {t} else {})
  {
  }

  lemma PastAfterRemoval(flights: map<nat, Flight>, t: nat)
    ensures PastKeys(flights - {t}) == PastKeys(flights) - {t}
  {
  }

  /** A flight that has not passed the check is not among those that have. */
  lemma PastLess(flights: map<nat, Flight>, t: nat)
    requires t in flights && !PastCheck(flights[t])
    ensures |PastKeys(flights)| <= |flights| - 1
  {
    SubsetCard(PastKeys(flights), flights.Keys - {t});
    assert |flights.Keys - {t}| == |flights.Keys| - 1;
    assert |flights.Keys| == |flights|;
  }

  lemma {:induction false} SubsetCard<T>(a: set<T>, b: set<T>)
    requires a <= b
    ensures |a| <= |b|
  {
    if a != {} {
      var x :| x in a;
      SubsetCard(a - {x}, b - {x});
    }
  }

  lemma OpenAfterUpdate(orders: Orders, k: string, e: Entry)
    ensures |OpenKeys(orders[k := e])| <= |OpenKeys(orders)| + 1
    ensures !CountsAsOpen(e.status) ==> |OpenKeys(orders[k := e])| <= |OpenKeys(orders)|
  {
    KeysAfterUpdate(orders, k, e);
    SubsetCard(OpenKeys(orders) - {k}, OpenKeys(orders));
  }

  lemma LimitBegin(s: Sys, t: nat, o: Order)
    requires LimitInv(s) && Fits(s, Begin(t, o))
    ensures LimitInv(AfterBegin(s, t, o))
  {
    FlightCard(s.flights, t, Checking(o));
    PastCard(s.flights, t, Checking(o));
  }

  /** Looking at the limit below the maximum leaves room for every other submit in flight. */
  lemma LimitCheck(s: Sys, t: nat, o: Order)
    requires LimitInv(s) && t in s.flights && s.flights[t].Checking?
    ensures LimitInv(AfterCheck(s, t, o))
  {
    FlightCard(s.flights, t, Passed(o));
    PastCard(s.flights, t, Passed(o));
    PastLess(s.flights, t);
  }

  lemma LimitInsert(s: Sys, t: nat, o: Order)
    requires LimitInv(s) && t in s.flights && s.flights[t].Passed?
    ensures LimitInv(AfterInsert(s, t, o))
  {
    FlightCard(s.flights, t, Inserted(o));
    PastCard(s.flights, t, Inserted(o));
    OpenAfterUpdate(s.orders, o.clid, FreshEntry(o));
  }

  lemma LimitMatch(s: Sys, t: nat, o: Order)
    requires LimitInv(s) && t in s.flights && s.flights[t].Inserted?
    ensures LimitInv(AfterMatch(s, t, o))
  {
    FlightCard(s.flights, t, Matched(o, MatchFills(s.books, o)));
    PastCard(s.flights, t, Matched(o, MatchFills(s.books, o)));
  }

  lemma LimitSettle(s: Sys, t: nat, o: Order, fills: seq<Fill>)
    requires LimitInv(s) && t in s.flights && s.flights[t].Matched?
    ensures LimitInv(AfterSettle(s, t, o, fills))
  {
    FlightCard(s.flights, t, Settled(o, fills));
    PastCard(s.flights, t, Settled(o, fills));
    if o.clid in s.orders {
      OpenAfterUpdate(s.orders, o.clid, SettledEntry(s.orders[o.clid], fills != [], Filled(fills)));
    }
  }

  lemma LimitFinish(s: Sys, t: nat, fills: seq<Fill>)
    requires LimitInv(s) && t in s.flights && s.flights[t].Settled?
    ensures LimitInv(AfterFinish(s, t, fills))
  {
    FlightCard(s.flights, t, s.flights[t]);
    PastCard(s.flights, t, s.flights[t]);
  }

  lemma LimitCancel(s: Sys, clid: string)
    requires LimitInv(s) && Cancelable(s.orders, clid)
    ensures LimitInv(AfterCancel(s, clid))
  {
    OpenAfterUpdate(s.orders, clid, CanceledEntry(s.orders[clid]));
  }

  lemma LimitStep(s: Sys, a: Action)
    requires LimitInv(s)
    ensures LimitInv(Next(s, a))
  {
    if Fits(s, a) {
      match a {
        case Begin(t, o) => LimitBegin(s, t, o);
        case CheckLimit(t) => LimitCheck(s, t, s.flights[t].order);
        case InsertEntry(t) => LimitInsert(s, t, s.flights[t].order);
        case MatchBook(t) => LimitMatch(s, t, s.flights[t].order);
        case SettleEntry(t) => LimitSettle(s, t, s.flights[t].order, s.flights[t].fills);
        case Finish(t) => LimitFinish(s, t, s.flights[t].fills);
        case CancelOrder(clid) => LimitCancel(s, clid);
        case FeedBook(ev) =>
      }
    }
  }

  lemma {:induction false} LimitExec(s: Sys, actions: seq<Action>)
    requires LimitInv(s)
    ensures LimitInv(Exec(s, actions))
    decreases |actions|
  {
    if actions != [] {
      LimitStep(s, actions[0]);
      LimitExec(Next(s, actions[0]), actions[1..]);
    }
  }

  lemma StepKeepsConfiguration(s: Sys, a: Action)
    ensures Next(s, a).policy == s.policy && Next(s, a).maxInFlight == s.maxInFlight
  {
  }

  lemma {:induction false} ConfigurationIsFixed(s: Sys, actions: seq<Action>)
    ensures Exec(s, actions).policy == s.policy && Exec(s, actions).maxInFlight == s.maxInFlight
    decreases |actions|
  {
    if actions != [] {
      StepKeepsConfiguration(s, actions[0]);
      var next, rest := Next(s, actions[0]), actions[1..];
      ConfigurationIsFixed(next, rest);
    }
  }

  /** In every interleaving with at most T submits in flight, open_order_count() stays within
      max_open_orders + T - 1; one submit at a time makes the limit exact. */
  lemma {:induction false} OpenOrdersBounded(s: Sys, actions: seq<Action>)
    requires Init(s) && s.policy.maxOpenOrders > 0 && s.maxInFlight > 0
    ensures var r := Exec(s, actions).orders;
      |set c | c in r && (r[c].status == OPEN || r[c].status == PARTIAL)| <= s.policy.maxOpenOrders + s.maxInFlight - 1
  {
    var r := Exec(s, actions).orders;
    assert OpenKeys(r) == set c | c in r && (r[c].status == OPEN || r[c].status == PARTIAL);
    assert OpenKeys(s.orders) == {} && PastKeys(s.flights) == {};
    LimitExec(s, actions);
    ConfigurationIsFixed(s, actions);
  }

  // ---- the gauge and the counters -----------------------------------------------------

  ghost predicate GaugeInv(s: Sys) {
    && s.counters.openGauge == |LiveKeys(s.orders)|
    && NewIsOwed(s.orders, s.flights)
    && s.counters.accepted + s.counters.rejected + |s.flights| == s.started
  }

  /** The flight still has to set this client id's status. */
  ghost predicate Owes(f: Flight, clid: string) { (f.Inserted? || f.Matched?) && f.order.clid == clid }

  ghost predicate NewIsOwed(orders: Orders, flights: map<nat, Flight>) {
    forall c | c in orders && orders[c].status == NEW :: exists t | t in flights :: Owes(flights[t], c)
  }

  /** Changing one flight keeps every NEW order owed, if that flight gives up only orders that are
      no longer NEW and takes on the newly inserted one. */
  lemma OwedAfter(orders: Orders, flights: map<nat, Flight>, orders': Orders, flights': map<nat, Flight>, t: nat)
    requires NewIsOwed(orders, flights)
    requires forall u | u in flights && u != t :: u in flights' && flights'[u] == flights[u]
    requires forall c | c in orders' && orders'[c].status == NEW ::
      || (t in flights' && Owes(flights'[t], c))
      || (c in orders && orders[c].status == NEW && !(t in flights && Owes(flights[t], c)))
    ensures NewIsOwed(orders', flights')
  {
    forall c | c in orders' && orders'[c].status == NEW ensures exists u | u in flights' :: Owes(flights'[u], c) {
      if !(t in flights' && Owes(flights'[t], c)) {
        var u :| u in flights && Owes(flights[u], c);
        assert u in flights' && Owes(flights'[u], c);
      }
    }
  }

  lemma GaugeBegin(s: Sys, t: nat, o: Order)
    requires GaugeInv(s) && t !in s.flights
    ensures GaugeInv(AfterBegin(s, t, o))
  {
    FlightCard(s.flights, t, Checking(o));
    OwedAfter(s.orders, s.flights, s.orders, s.flights[t := Checking(o)], t);
  }

  lemma GaugeCheck(s: Sys, t: nat, o: Order)
    requires GaugeInv(s) && t in s.flights && s.flights[t].Checking?
    ensures GaugeInv(AfterCheck(s, t, o))
  {
    FlightCard(s.flights, t, Passed(o));
    OwedAfter(s.orders, s.flights, s.orders, s.flights[t := Passed(o)], t);
    OwedAfter(s.orders, s.flights, s.orders, s.flights - {t}, t);
  }

  lemma GaugeInsert(s: Sys, t: nat, o: Order)
    requires GaugeInv(s) && t in s.flights && s.flights[t].Passed?
    ensures GaugeInv(AfterInsert(s, t, o))
  {
    FlightCard(s.flights, t, Inserted(o));
    OwedAfter(s.orders, s.flights, Insert(s.orders, o), s.flights[t := Inserted(o)], t);
    OwedAfter(s.orders, s.flights, s.orders, s.flights - {t}, t);
  }

  lemma GaugeMatch(s: Sys, t: nat, o: Order)
    requires GaugeInv(s) && t in s.flights && s.flights[t] == Inserted(o)
    ensures GaugeInv(AfterMatch(s, t, o))
  {
    var f := Matched(o, MatchFills(s.books, o));
    FlightCard(s.flights, t, f);
    OwedAfter(s.orders, s.flights, s.orders, s.flights[t := f], t);
  }

  lemma GaugeSettle(s: Sys, t: nat, o: Order, fills: seq<Fill>)
    requires GaugeInv(s) && t in s.flights && s.flights[t] == Matched(o, fills)
    ensures GaugeInv(AfterSettle(s, t, o, fills))
  {
    FlightCard(s.flights, t, Settled(o, fills));
    OwedAfter(s.orders, s.flights, Settle(s.orders, o.clid, fills), s.flights[t := Settled(o, fills)], t);
  }

  lemma GaugeFinish(s: Sys, t: nat, fills: seq<Fill>)
    requires GaugeInv(s) && t in s.flights && s.flights[t].Settled?
    ensures GaugeInv(AfterFinish(s, t, fills))
  {
    FlightCard(s.flights, t, s.flights[t]);
    OwedAfter(s.orders, s.flights, s.orders, s.flights - {t}, t);
  }

  lemma GaugeStep(s: Sys, a: Action)
    requires GaugeInv(s)
    ensures GaugeInv(Next(s, a))
  {
    if Fits(s, a) {
      match a {
        case Begin(t, o) => GaugeBegin(s, t, o);
        case CheckLimit(t) => GaugeCheck(s, t, s.flights[t].order);
        case InsertEntry(t) => GaugeInsert(s, t, s.flights[t].order);
        case MatchBook(t) => GaugeMatch(s, t, s.flights[t].order);
        case SettleEntry(t) => GaugeSettle(s, t, s.flights[t].order, s.flights[t].fills);
        case Finish(t) => GaugeFinish(s, t, s.flights[t].fills);
        case CancelOrder(clid) => GaugeCancel(s, clid);
        case FeedBook(ev) =>
      }
    }
  }

  lemma GaugeCancel(s: Sys, clid: string)
    requires GaugeInv(s) && Cancelable(s.orders, clid)
    ensures GaugeInv(AfterCancel(s, clid))
  {
  }

  lemma {:induction false} GaugeExec(s: Sys, actions: seq<Action>)
    requires GaugeInv(s)
    ensures GaugeInv(Exec(s, actions))
    decreases |actions|
  {
    if actions != [] {
      GaugeStep(s, actions[0]);
      GaugeExec(Next(s, actions[0]), actions[1..]);
    }
  }

  /** Between any two steps, the gauge is the number of NEW, OPEN and PARTIAL orders and every started
      submit is accepted, rejected or in flight; when none is in flight, no order is NEW and the gauge
      is open_order_count(). */
  lemma {:induction false} GaugeIsExact(s: Sys, actions: seq<Action>)
    requires Init(s)
    ensures var r := Exec(s, actions);
      && r.counters.openGauge
         == |set c | c in r.orders && (r.orders[c].status == NEW || r.orders[c].status == OPEN || r.orders[c].status == PARTIAL)|
      && r.counters.accepted + r.counters.rejected + |r.flights| == r.started
      && (r.flights == map[] ==>
            && (forall c | c in r.orders :: r.orders[c].status != NEW)
            && r.counters.openGauge
               == |set c | c in r.orders && (r.orders[c].status == OPEN || r.orders[c].status == PARTIAL)|
            && r.counters.accepted + r.counters.rejected == r.started)
  {
    assert LiveKeys(s.orders) == {};
    GaugeExec(s, actions);
    var r := Exec(s, actions);
    assert LiveKeys(r.orders)
      == set c | c in r.orders && (r.orders[c].status == NEW || r.orders[c].status == OPEN || r.orders[c].status == PARTIAL);
    if r.flights == map[] {
      assert LiveKeys(r.orders)
        == set c | c in r.orders && (r.orders[c].status == OPEN || r.orders[c].status == PARTIAL);
    }
  }

  // ---- the order-size limit -----------------------------------------------------------

  ghost predicate SizesOk(s: Sys) {
    && (forall t | t in s.flights :: !SizeProblem(s.policy, s.flights[t].order.size).0)
    && (forall c | c in s.orders :: !SizeProblem(s.policy, s.orders[c].original).0)
  }

  lemma SizesBegin(s: Sys, t: nat, o: Order)
    requires SizesOk(s) && t !in s.flights
    ensures SizesOk(AfterBegin(s, t, o))
  {
  }

  lemma SizesAt(s: Sys, t: nat, f: Flight)
    requires SizesOk(s) && t in s.flights && f.order == s.flights[t].order
    ensures SizesOk(At(s, t, f)) && SizesOk(Leave(s, t))
  {
  }

  lemma SizesInsert(s: Sys, t: nat, o: Order)
    requires SizesOk(s) && t in s.flights && o == s.flights[t].order
    ensures SizesOk(AfterInsert(s, t, o))
  {
    SizesAt(s, t, Inserted(o));
  }

  lemma SizesSettle(s: Sys, t: nat, o: Order, fills: seq<Fill>)
    requires SizesOk(s) && t in s.flights && o == s.flights[t].order
    ensures SizesOk(AfterSettle(s, t, o, fills))
  {
    SizesAt(s, t, Settled(o, fills));
  }

  lemma SizesStep(s: Sys, a: Action)
    requires SizesOk(s)
    ensures SizesOk(Next(s, a))
  {
    if Fits(s, a) {
      match a {
        case Begin(t, o) => SizesBegin(s, t, o);
        case CheckLimit(t) => SizesAt(s, t, Passed(s.flights[t].order));
        case InsertEntry(t) => SizesInsert(s, t, s.flights[t].order);
        case MatchBook(t) => SizesAt(s, t, Matched(s.flights[t].order, MatchFills(s.books, s.flights[t].order)));
        case SettleEntry(t) => SizesSettle(s, t, s.flights[t].order, s.flights[t].fills);
        case Finish(t) => SizesAt(s, t, s.flights[t]);
        case CancelOrder(clid) =>
        case FeedBook(ev) =>
      }
    }
  }

  lemma {:induction false} SizesExec(s: Sys, actions: seq<Action>)
    requires SizesOk(s)
    ensures SizesOk(Exec(s, actions))
    decreases |actions|
  {
    if actions != [] {
      SizesStep(s, actions[0]);
      var next, rest := Next(s, actions[0]), actions[1..];
      SizesExec(next, rest);
    }
  }

  /** In every interleaving, no order beyond the size limit ever gets an entry. A limit of 2^63 or more
      is negative once cast to a signed size, and then no order at all does. */
  lemma {:induction false} SizesRespectLimit(s: Sys, actions: seq<Action>, c: string)
    requires Init(s) && c in Exec(s, actions).orders
    ensures var size, limit := Exec(s, actions).orders[c].original, s.policy.maxOrderSize;
      0 < size && (limit == 0 || size <= limit < 0x8000_0000_0000_0000)
  {
    SizesExec(s, actions);
    ConfigurationIsFixed(s, actions);
  }
}
