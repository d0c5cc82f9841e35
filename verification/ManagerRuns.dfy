/** Particular runs of the order manager (cpp/src/order_manager.cpp): a submit that runs alone, the
    open-order limit overshot by as much as the bound allows, and the two ways to unbalance an order. */
module ManagerRuns {
  import opened Matching
  import opened OrderBook
  import opened OrderState
  import opened ManagerProtocol
  import opened OrderLedger
  import OrderManager

  lemma {:induction false} ExecConcat(s: Sys, a: seq<Action>, b: seq<Action>)
    ensures Exec(s, a + b) == Exec(Exec(s, a), b)
    decreases |a|
  {
    if a == [] {
      assert a + b == b;
    } else {
      assert (a + b)[1..] == a[1..] + b;
      ExecConcat(Next(s, a[0]), a[1..], b);
    }
  }

  lemma {:induction false} ExecTwo(s: Sys, a: Action, b: Action)
    ensures Exec(s, [a, b]) == Next(Next(s, a), b)
  {
    assert [a, b][1..] == [b] && [b][1..] == [];
    var m := Next(s, a);
    assert Exec(m, [b]) == Exec(Next(m, b), []);
  }

  lemma {:induction false} ExecThree(s: Sys, a: Action, b: Action, c: Action)
    ensures Exec(s, [a, b, c]) == Next(Next(Next(s, a), b), c)
  {
    assert [a, b, c][1..] == [b, c];
    ExecTwo(Next(s, a), b, c);
  }

  // ---- a submit alone ---------------------------------------------------------------

  function Admission(t: nat, o: Order): seq<Action> { [Begin(t, o), CheckLimit(t)] }

  function Completion(t: nat): seq<Action> { [InsertEntry(t), MatchBook(t), SettleEntry(t)] }

  lemma {:induction false} AdmissionSteps(s: Sys, t: nat, o: Order)
    requires Fits(s, Begin(t, o))
    ensures Exec(s, Admission(t, o)) ==
      if SizeProblem(s.policy, o.size).0 then AfterBegin(s, t, o) else AfterCheck(AfterBegin(s, t, o), t, o)
  {
    ExecTwo(s, Begin(t, o), CheckLimit(t));
    var a := AfterBegin(s, t, o);
    assert Next(s, Begin(t, o)) == a;
    LookAtLimit(a, t, o);
    assert t in a.flights <==> !SizeProblem(s.policy, o.size).0;
    assert t in a.flights ==> a.flights[t] == Checking(o);
  }

  lemma LookAtLimit(a: Sys, t: nat, o: Order)
    ensures Next(a, CheckLimit(t)) ==
      if t in a.flights && a.flights[t].Checking? then AfterCheck(a, t, a.flights[t].order) else a
  {
  }

  /** Admission passes exactly when the sequential submit passes its size and limit checks. */
  lemma {:induction false} SoloAdmission(s: Sys, t: nat, o: Order)
    requires Fits(s, Begin(t, o))
    ensures var r := Exec(s, Admission(t, o));
      var refused := SizeProblem(s.policy, o.size).0 || LimitReached(s.policy, s.orders);
      && r.orders == s.orders && r.books == s.books && r.policy == s.policy && r.maxInFlight == s.maxInFlight
      && r.filledFor == s.filledFor && r.canceledFor == s.canceledFor
      && r.counters == (if refused then s.counters.(rejected := s.counters.rejected + 1) else s.counters)
      && r.flights == if refused then s.flights else s.flights[t := Passed(o)]
  {
    AdmissionSteps(s, t, o);
    assert s.flights[t := Checking(o)] - {t} == s.flights;
    assert s.flights[t := Checking(o)][t := Passed(o)] == s.flights[t := Passed(o)];
  }

  lemma {:induction false} CompletionSteps(s: Sys, t: nat, o: Order)
    requires t in s.flights && s.flights[t] == Passed(o) && s.policy.hasBook
    ensures Exec(s, Completion(t)) ==
      AfterSettle(AfterMatch(AfterInsert(s, t, o), t, o), t, o, MatchFills(s.books, o))
  {
    ExecThree(s, InsertEntry(t), MatchBook(t), SettleEntry(t));
    var a := AfterInsert(s, t, o);
    assert Next(s, InsertEntry(t)) == a;
    assert Next(a, MatchBook(t)) == AfterMatch(a, t, o);
  }

  lemma {:induction false} SoloCompletion(s: Sys, t: nat, o: Order)
    requires t in s.flights && s.flights[t] == Passed(o) && s.policy.hasBook
    ensures var r, fills := Exec(s, Completion(t)), MatchFills(s.books, o);
      && r.orders == Settle(Insert(s.orders, o), o.clid, fills)
      && r.books == MatchBooks(s.books, o) && r.policy == s.policy && r.maxInFlight == s.maxInFlight
      && r.counters == WithGauge(s.counters, r.orders)
      && r.flights == s.flights[t := Settled(o, fills)]
      && r.filledFor == s.filledFor[o.clid := Get(s.filledFor, o.clid) + Filled(fills)]
      && r.canceledFor == s.canceledFor
  {
    CompletionSteps(s, t, o);
    var fills := MatchFills(s.books, o);
    assert s.flights[t := Inserted(o)][t := Matched(o, fills)][t := Settled(o, fills)] == s.flights[t := Settled(o, fills)];
  }

  /** With nothing in between, the steps of a submit add up to the sequential submit_order. */
  lemma {:induction false} SoloSubmit(s: Sys, t: nat, o: Order)
    requires Fits(s, Begin(t, o)) && s.policy.hasBook
    ensures var outcome := OrderManager.SubmitOutcome(s.policy, s.orders, s.books, o);
      var r := Next(Exec(Exec(s, Admission(t, o)), Completion(t)), Finish(t));
      && r.orders == OrderManager.OrdersAfter(s.orders, o, outcome)
      && r.counters == OrderManager.CountersAfter(s.counters, s.orders, o, outcome)
      && r.books == (if outcome.Accepted? then MatchBooks(s.books, o) else s.books)
      && r.flights == s.flights
  {
    SoloAdmission(s, t, o);
    var a := Exec(s, Admission(t, o));
    if t in a.flights {
      SoloAccepted(s, a, t, o);
    } else {
      ExecThree(a, InsertEntry(t), MatchBook(t), SettleEntry(t));
      NothingFits(a, t);
    }
  }

  lemma NothingFits(a: Sys, t: nat)
    requires t !in a.flights
    ensures Next(a, InsertEntry(t)) == a && Next(a, MatchBook(t)) == a && Next(a, SettleEntry(t)) == a && Next(a, Finish(t)) == a
  {
  }

  lemma {:induction false} SoloAccepted(s: Sys, a: Sys, t: nat, o: Order)
    requires t !in s.flights && a.flights == s.flights[t := Passed(o)] && a.policy == s.policy && s.policy.hasBook
    requires a.orders == s.orders && a.books == s.books && a.counters == s.counters
    requires !SizeProblem(s.policy, o.size).0 && !LimitReached(s.policy, s.orders)
    ensures var r, accepted := Next(Exec(a, Completion(t)), Finish(t)), OrderManager.Accepted(MatchFills(s.books, o));
      && OrderManager.SubmitOutcome(s.policy, s.orders, s.books, o) == accepted
      && r.orders == OrderManager.OrdersAfter(s.orders, o, accepted)
      && r.counters == OrderManager.CountersAfter(s.counters, s.orders, o, accepted)
      && r.books == MatchBooks(s.books, o) && r.flights == s.flights
  {
    SoloCompletion(a, t, o);
    var fills, c := MatchFills(s.books, o), Exec(a, Completion(t));
    FinishStep(c, t, o, fills);
    assert (s.flights[t := Passed(o)])[t := Settled(o, fills)] - {t} == s.flights;
  }

  lemma FinishStep(c: Sys, t: nat, o: Order, fills: seq<Fill>)
    requires t in c.flights && c.flights[t] == Settled(o, fills)
    ensures Next(c, Finish(t)) == AfterFinish(c, t, fills)
  {
  }

  // ---- reaching the bound -------------------------------------------------------------

  function Name(i: nat): string { seq(i, _ => 'x') }

  function UnitOrder(i: nat): Order { Order(Name(i), BUY, "", 0, 1) }

  /** n open orders named by their numbers. */
  ghost predicate AllOpen(orders: Orders, n: nat) {
    && (forall c | c in orders :: orders[c].status == OPEN && exists i: nat :: i < n && c == Name(i))
    && |orders| == n
  }

  /** n open orders, an empty book, and the submits p .. q past the check. */
  ghost predicate Shape(s: Sys, n: nat, p: nat, q: nat, base: nat) {
    && s.books == map[] && s.policy.hasBook && s.policy.maxOrderSize == 0
    && AllOpen(s.orders, n)
    && p <= q && |s.flights| == q && (forall t | t in s.flights :: t < q)
    && (forall t: nat | p <= t < q :: t in s.flights && s.flights[t] == Passed(UnitOrder(base + t)))
  }

  lemma OpenIsAll(s: Sys, n: nat, p: nat, q: nat, base: nat)
    requires Shape(s, n, p, q, base)
    ensures |OpenKeys(s.orders)| == n && forall i: nat | i >= n :: Name(i) !in s.orders
  {
    assert OpenKeys(s.orders) == s.orders.Keys;
    assert |s.orders.Keys| == |s.orders|;
    forall i: nat | i >= n ensures Name(i) !in s.orders {
      assert forall j: nat | j < n :: |Name(j)| != |Name(i)|;
    }
  }

  /** One more submit past the check, while the limit is not reached. */
  lemma Admit(s: Sys, n: nat, q: nat) returns (acts: seq<Action>, r: Sys)
    requires Shape(s, n, 0, q, n) && q < s.maxInFlight && n < s.policy.maxOpenOrders
    ensures r == Exec(s, acts) && Shape(r, n, 0, q + 1, n)
  {
    OpenIsAll(s, n, 0, q, n);
    var o := UnitOrder(n + q);
    assert Fits(s, Begin(q, o)) && !SizeProblem(s.policy, o.size).0 && !LimitReached(s.policy, s.orders);
    SoloAdmission(s, q, o);
    FlightCard(s.flights, q, Passed(o));
    acts, r := Admission(q, o), Exec(s, Admission(q, o));
    ShapeAdmit(s, r, n, q);
  }

  lemma ShapeAdmit(s: Sys, r: Sys, n: nat, q: nat)
    requires Shape(s, n, 0, q, n)
    requires r.books == s.books && r.policy == s.policy && r.orders == s.orders
    requires r.flights == s.flights[q := Passed(UnitOrder(n + q))] && |r.flights| == q + 1
    ensures Shape(r, n, 0, q + 1, n)
  {
  }

  /** One submit past the check opens its order. */
  lemma Complete(s: Sys, n: nat, p: nat, q: nat, base: nat) returns (acts: seq<Action>, r: Sys)
    requires Shape(s, n, p, q, base) && p < q && n == base + p
    ensures r == Exec(s, acts) && Shape(r, n + 1, p + 1, q, base) && p in r.flights && r.flights[p].Settled?
  {
    OpenIsAll(s, n, p, q, base);
    var o := UnitOrder(n);
    SoloCompletion(s, p, o);
    NothingToMatch(s.orders, o);
    FlightCard(s.flights, p, Settled(o, []));
    acts, r := Completion(p), Exec(s, Completion(p));
    ShapeComplete(s, r, n, p, q, base);
  }

  lemma NothingToMatch(orders: Orders, o: Order)
    requires o.clid !in orders
    ensures MatchFills(map[], o) == [] && MatchBooks(map[], o) == map[]
    ensures Settle(Insert(orders, o), o.clid, []) == orders[o.clid := FreshEntry(o).(status := OPEN)]
  {
  }

  lemma ShapeComplete(s: Sys, r: Sys, n: nat, p: nat, q: nat, base: nat)
    requires Shape(s, n, p, q, base) && p < q && n == base + p && Name(n) !in s.orders
    requires r.books == map[] && r.policy == s.policy
    requires r.orders == s.orders[Name(n) := FreshEntry(UnitOrder(n)).(status := OPEN)]
    requires r.flights == s.flights[p := Settled(UnitOrder(n), [])] && |r.flights| == q
    ensures Shape(r, n + 1, p + 1, q, base)
  {
    OneMoreOpen(s.orders, r.orders, n, FreshEntry(UnitOrder(n)).(status := OPEN));
  }

  lemma OneMoreOpen(orders: Orders, orders': Orders, n: nat, e: Entry)
    requires AllOpen(orders, n) && Name(n) !in orders && e.status == OPEN && orders' == orders[Name(n) := e]
    ensures AllOpen(orders', n + 1)
  {
    assert orders'.Keys == orders.Keys + {Name(n)};
    assert |orders'.Keys| == |orders'| && |orders.Keys| == |orders|;
    forall c | c in orders' ensures orders'[c].status == OPEN && exists i: nat :: i < n + 1 && c == Name(i) {
      if c != Name(n) {
        assert c in orders;
        var i: nat :| i < n && c == Name(i);
      }
    }
  }

  lemma {:induction false} CompleteAll(s: Sys, n: nat, p: nat, q: nat, base: nat) returns (acts: seq<Action>)
    requires Shape(s, n, p, q, base) && n == base + p
    ensures Shape(Exec(s, acts), base + q, q, q, base)
    decreases q - p
  {
    if p == q {
      acts := [];
    } else {
      var one, next := Complete(s, n, p, q, base);
      var rest := CompleteAll(next, n + 1, p + 1, q, base);
      ExecConcat(s, one, rest);
      acts := one + rest;
    }
  }

  lemma {:induction false} AdmitAll(s: Sys, n: nat, q: nat, upTo: nat) returns (acts: seq<Action>)
    requires Shape(s, n, 0, q, n) && q <= upTo <= s.maxInFlight && n < s.policy.maxOpenOrders
    ensures Shape(Exec(s, acts), n, 0, upTo, n)
    decreases upTo - q
  {
    if q == upTo {
      acts := [];
    } else {
      var one, next := Admit(s, n, q);
      ConfigurationIsFixed(s, one);
      var rest := AdmitAll(next, n, q + 1, upTo);
      ExecConcat(s, one, rest);
      acts := one + rest;
    }
  }

  /** One order after another, up to just below the limit. */
  lemma {:induction false} OpenOneByOne(s: Sys, n: nat, upTo: nat) returns (acts: seq<Action>)
    requires Shape(s, n, 0, 0, n) && s.maxInFlight > 0 && n <= upTo <= s.policy.maxOpenOrders
    ensures Shape(Exec(s, acts), upTo, 0, 0, upTo)
    decreases upTo - n
  {
    if n == upTo {
      acts := [];
    } else {
      var one := OpenOne(s, n);
      ConfigurationIsFixed(s, one);
      var rest := OpenOneByOne(Exec(s, one), n + 1, upTo);
      ExecConcat(s, one, rest);
      acts := one + rest;
    }
  }

  lemma OpenOne(s: Sys, n: nat) returns (acts: seq<Action>)
    requires Shape(s, n, 0, 0, n) && s.maxInFlight > 0 && n < s.policy.maxOpenOrders
    ensures Shape(Exec(s, acts), n + 1, 0, 0, n + 1)
  {
    var first, a := Admit(s, n, 0);
    var second, b := Complete(a, n, 0, 1, n);
    var third, c := LeaveAlone(b, n + 1, n);
    acts := ChainThree(s, first, second, third);
  }

  lemma ChainThree(s: Sys, a: seq<Action>, b: seq<Action>, c: seq<Action>) returns (acts: seq<Action>)
    ensures Exec(s, acts) == Exec(Exec(Exec(s, a), b), c)
  {
    ExecConcat(s, a, b);
    ExecConcat(s, a + b, c);
    acts := a + b + c;
  }

  lemma LeaveAlone(s: Sys, n: nat, base: nat) returns (acts: seq<Action>, r: Sys)
    requires Shape(s, n, 1, 1, base) && 0 in s.flights && s.flights[0].Settled?
    ensures r == Exec(s, acts) && Shape(r, n, 0, 0, n)
  {
    acts, r := [Finish(0)], Next(s, Finish(0));
    assert acts[1..] == [];
    assert Exec(r, []) == r;
    FlightCard(s.flights, 0, s.flights[0]);
  }

  /** The bound max_open_orders + T - 1 is reached, for every positive limit and every T. */
  lemma BoundIsReached(maxOpen: nat, inFlight: nat) returns (s: Sys, acts: seq<Action>)
    requires maxOpen > 0 && inFlight > 0
    ensures Init(s) && s.policy.maxOpenOrders == maxOpen && s.maxInFlight == inFlight
    ensures |OpenKeys(Exec(s, acts).orders)| == maxOpen + inFlight - 1
  {
    s := Sys(Policy(0, maxOpen, true), inFlight, map[], map[], Counters(0, 0, 0, 0, 0, 0), map[], 0, {}, map[], map[]);
    var n := maxOpen - 1;
    var open := OpenOneByOne(s, 0, n);
    var a := Exec(s, open);
    ConfigurationIsFixed(s, open);
    var admit := AdmitAll(a, n, 0, inFlight);
    var b := Exec(a, admit);
    var complete := CompleteAll(b, n, 0, inFlight, n);
    acts := ChainThree(s, open, admit, complete);
    OpenIsAll(Exec(s, acts), n + inFlight, inFlight, inFlight, n);
  }

  // ---- unbalancing an order -------------------------------------------------------------

  /** What may happen between a cancel and the status update that its order is still owed: anything
      but that update, and no second submit of the same client id. */
  ghost predicate NotYetSettled(a: Action, t: nat, c: string) {
    a != SettleEntry(t) && !(a.Begin? && a.order.clid == c)
  }

  /** Submit t still owes its order the status update, but the order is already canceled. */
  ghost predicate CanceledWhileOwed(s: Sys, t: nat, o: Order) {
    && t in s.flights && Owes(s.flights[t], o.clid) && s.flights[t].order == o
    && (forall u | u in s.flights && u != t :: s.flights[u].order.clid != o.clid)
    && o.clid in s.orders && s.orders[o.clid] == CanceledEntry(FreshEntry(o))
    && Get(s.canceledFor, o.clid) > 0
  }

  lemma {:induction false} CancelWhileOwed(s: Sys, t: nat)
    requires Ledger(s) && t in s.flights && Owes(s.flights[t], s.flights[t].order.clid)
    ensures CanceledWhileOwed(Next(s, CancelOrder(s.flights[t].order.clid)), t, s.flights[t].order)
  {
    assert FlightOk(s, s.flights[t]);
    var o := s.flights[t].order;
    var r := AfterCancel(s, o.clid);
    assert Next(s, CancelOrder(o.clid)) == r;
    assert r.flights == s.flights && r.orders[o.clid] == CanceledEntry(FreshEntry(o));
    assert Get(r.canceledFor, o.clid) == Get(s.canceledFor, o.clid) + o.size;
  }

  lemma {:induction false} StaysCanceled(s: Sys, t: nat, o: Order, a: Action)
    requires CanceledWhileOwed(s, t, o) && NotYetSettled(a, t, o.clid)
    ensures CanceledWhileOwed(Next(s, a), t, o)
  {
    if Fits(s, a) {
      match a {
        case Begin(u, other) => StillOwed(s, AfterBegin(s, u, other), t, o);
        case CheckLimit(u) => StillOwed(s, AfterCheck(s, u, s.flights[u].order), t, o);
        case Finish(u) => StillOwed(s, AfterFinish(s, u, s.flights[u].fills), t, o);
        case CancelOrder(c) => StillOwed(s, AfterCancel(s, c), t, o);
        case FeedBook(_) =>
        case _ => StaysCanceledInside(s, t, o, a);
      }
    }
  }

  lemma {:induction false} StaysCanceledInside(s: Sys, t: nat, o: Order, a: Action)
    requires CanceledWhileOwed(s, t, o) && NotYetSettled(a, t, o.clid)
    requires Fits(s, a) && (a.InsertEntry? || a.MatchBook? || a.SettleEntry?)
    ensures CanceledWhileOwed(Next(s, a), t, o)
  {
    match a {
      case InsertEntry(u) => StillOwed(s, AfterInsert(s, u, s.flights[u].order), t, o);
      case MatchBook(u) => StillOwed(s, AfterMatch(s, u, s.flights[u].order), t, o);
      case SettleEntry(u) => StillOwed(s, AfterSettle(s, u, s.flights[u].order, s.flights[u].fills), t, o);
    }
  }

  /** What the other submits and cancels leave alone. */
  lemma StillOwed(s: Sys, r: Sys, t: nat, o: Order)
    requires CanceledWhileOwed(s, t, o) && t in r.flights
    requires r.flights[t] == s.flights[t] || (s.flights[t] == Inserted(o) && r.flights[t].Matched? && r.flights[t].order == o)
    requires forall u | u in r.flights && u != t :: r.flights[u].order.clid != o.clid
    requires o.clid in r.orders && r.orders[o.clid] == s.orders[o.clid]
    requires Get(r.canceledFor, o.clid) == Get(s.canceledFor, o.clid)
    ensures CanceledWhileOwed(r, t, o)
  {
  }

  lemma {:induction false} StaysCanceledInRuns(s: Sys, t: nat, o: Order, acts: seq<Action>)
    requires CanceledWhileOwed(s, t, o) && forall a | a in acts :: NotYetSettled(a, t, o.clid)
    ensures CanceledWhileOwed(Exec(s, acts), t, o)
    decreases |acts|
  {
    if acts != [] {
      StaysCanceled(s, t, o, acts[0]);
      StaysCanceledInRuns(Next(s, acts[0]), t, o, acts[1..]);
    }
  }

  /** The status update finds its order canceled and overwrites that. */
  lemma {:induction false} LateSettle(m: Sys, t: nat, o: Order)
    requires CanceledWhileOwed(m, t, o) && m.flights[t].Matched?
    ensures var r := Next(m, SettleEntry(t));
      o.clid in r.orders && r.orders[o.clid].status != CANCELED && !BalancedAt(r, o.clid)
  {
    assert Next(m, SettleEntry(t)) == AfterSettle(m, t, o, m.flights[t].fills);
  }

  /** A cancel of an order whose status update is still owed succeeds, and is undone by that update
      whenever it comes and whatever else happens before it: the order leaves CANCELED, and what was
      filled, remains and was canceled no longer add up to its status. */
  lemma {:induction false} CancelWhileOwedBreaks(s: Sys, t: nat, acts: seq<Action>)
    requires Ledger(s) && t in s.flights && Owes(s.flights[t], s.flights[t].order.clid)
    requires forall a | a in acts :: NotYetSettled(a, t, s.flights[t].order.clid)
    ensures var c := s.flights[t].order.clid;
      var m := Exec(Next(s, CancelOrder(c)), acts);
      var r := Next(m, SettleEntry(t));
      && c in m.orders && m.orders[c].status == CANCELED && t in m.flights
      && (m.flights[t].Matched? ==> c in r.orders && r.orders[c].status != CANCELED && !BalancedAt(r, c))
  {
    var o := s.flights[t].order;
    CancelWhileOwed(s, t);
    StaysCanceledInRuns(Next(s, CancelOrder(o.clid)), t, o, acts);
    var m := Exec(Next(s, CancelOrder(o.clid)), acts);
    if m.flights[t].Matched? { LateSettle(m, t, o); }
  }

  /** In particular a cancel right between matching and the status update. */
  lemma {:induction false} CancelBeforeUpdateBreaks(s: Sys, t: nat, o: Order, fills: seq<Fill>)
    requires Ledger(s) && t in s.flights && s.flights[t] == Matched(o, fills)
    ensures var mid := Next(s, CancelOrder(o.clid));
      var r := Next(mid, SettleEntry(t));
      && o.clid in mid.orders && mid.orders[o.clid].status == CANCELED
      && o.clid in r.orders && r.orders[o.clid].status != CANCELED
      && !BalancedAt(r, o.clid)
  {
    CancelWhileOwed(s, t);
    LateSettle(Next(s, CancelOrder(o.clid)), t, o);
  }

  /** And a cancel between insertion and matching. */
  lemma {:induction false} CancelBeforeMatchBreaks(s: Sys, t: nat, o: Order)
    requires Ledger(s) && t in s.flights && s.flights[t] == Inserted(o)
    ensures var mid := Next(s, CancelOrder(o.clid));
      var r := Next(Next(mid, MatchBook(t)), SettleEntry(t));
      && o.clid in mid.orders && mid.orders[o.clid].status == CANCELED
      && o.clid in r.orders && r.orders[o.clid].status != CANCELED
      && !BalancedAt(r, o.clid)
  {
    CancelWhileOwed(s, t);
    var mid := Next(s, CancelOrder(o.clid));
    StaysCanceled(mid, t, o, MatchBook(t));
    assert Next(mid, MatchBook(t)) == AfterMatch(mid, t, o);
    LateSettle(Next(mid, MatchBook(t)), t, o);
  }

  // ---- a reused client id ---------------------------------------------------------------

  /** What matching gives a submit is positive, or nothing. */
  ghost predicate FillsAreSound(s: Sys) {
    forall t | t in s.flights && s.flights[t].Matched? ::
      var fills := s.flights[t].fills; Filled(fills) >= 0 && (Filled(fills) == 0 <==> fills == [])
  }

  lemma {:induction false} FillsStaySound(s: Sys, a: Action)
    requires FillsAreSound(s)
    ensures FillsAreSound(Next(s, a))
  {
    var r := Next(s, a);
    if Fits(s, a) && a.MatchBook? {
      var o := s.flights[a.tid].order;
      FillBound(o.clid, Opposite(SidesOf(s.books, o.symbol), o.side), o.size);
      assert r == AfterMatch(s, a.tid, o);
    } else {
      NoNewMatch(s, a);
    }
  }

  lemma {:induction false} NoNewMatch(s: Sys, a: Action)
    requires !(Fits(s, a) && a.MatchBook?)
    ensures var r := Next(s, a);
      forall t | t in r.flights && r.flights[t].Matched? :: t in s.flights && s.flights[t] == r.flights[t]
  {
  }

  lemma {:induction false} FillsAreSoundInRuns(s: Sys, acts: seq<Action>)
    requires FillsAreSound(s)
    ensures FillsAreSound(Exec(s, acts))
    decreases |acts|
  {
    if acts != [] {
      FillsStaySound(s, acts[0]);
      FillsAreSoundInRuns(Next(s, acts[0]), acts[1..]);
    }
  }

  /** In every run, disciplined or not: a status update that finds an entry in balance but for its own
      fills leaves it balanced exactly when the order was untouched and nothing was filled, or was
      open and the fills fit what remained of it. So a reused client id, which settles onto the first
      order's entry, is harmless exactly then, whatever happened since its submit began. */
  lemma {:induction false} SettleBalancedExactlyWhen(s: Sys, acts: seq<Action>, t: nat, o: Order, fills: seq<Fill>)
    requires Init(s)
    requires var m := Exec(s, acts);
      && t in m.flights && m.flights[t] == Matched(o, fills) && o.clid in m.orders
      && Balance(m.orders[o.clid], Get(m.filledFor, o.clid) - Filled(fills), Get(m.canceledFor, o.clid))
    ensures var m := Exec(s, acts);
      var e, n := m.orders[o.clid], Filled(fills);
      BalancedAt(Next(m, SettleEntry(t)), o.clid) <==>
        if n == 0 then e.status == OPEN else CountsAsOpen(e.status) && n <= e.remaining
  {
    FillsAreSoundInRuns(s, acts);
    var m := Exec(s, acts);
    assert Next(m, SettleEntry(t)) == AfterSettle(m, t, o, fills);
  }

  /** Submitting a client id again settles onto the first order's entry. With nothing in between, the
      entry stays balanced exactly when it was still open, and the new fills are none on an untouched
      order or fit its remaining size. */
  lemma {:induction false} ReuseBalancedExactlyWhen(s: Sys, t: nat, o: Order)
    requires t in s.flights && s.flights[t] == Passed(o) && s.policy.hasBook && o.size > 0
    requires BalancedAt(s, o.clid)
    ensures var e, n := s.orders[o.clid], Filled(MatchFills(s.books, o));
      BalancedAt(Exec(s, Completion(t)), o.clid) <==>
        if n == 0 then e.status == OPEN else CountsAsOpen(e.status) && n <= e.remaining
  {
    SoloCompletion(s, t, o);
    FillBound(o.clid, Opposite(SidesOf(s.books, o.symbol), o.side), o.size);
  }
}
