/** Where every unit of an order goes (cpp/src/order_manager.cpp): filled by the book, still
    remaining, or canceled. It holds in the runs that reuse no client id and cancel no order between
    the insertion of its entry and the status update; outside them it breaks. */
module OrderLedger {
  import opened Events
  import opened Matching
  import opened OrderBook
  import opened OrderState
  import opened ManagerProtocol

  /** Status and remaining size agree with what was filled and canceled. */
  ghost predicate Balance(e: Entry, filled: int, canceled: int) {
    && e.original > 0 && e.original == filled + e.remaining + canceled
    && match e.status
       case NEW => false
       case OPEN => filled == 0 && canceled == 0
       case PARTIAL => 0 < filled < e.original && canceled == 0
       case FILLED => e.remaining == 0 && canceled == 0
       case CANCELED => e.remaining == 0 && canceled > 0
  }

  ghost predicate BalancedAt(s: Sys, c: string) {
    c in s.orders && Balance(s.orders[c], Get(s.filledFor, c), Get(s.canceledFor, c))
  }

  ghost predicate Untouched(s: Sys, c: string) {
    c !in s.orders && c !in s.filledFor && c !in s.canceledFor
  }

  /** A submit between insertion and status update owes its order the update. */
  ghost predicate OwedBySome(flights: map<nat, Flight>, c: string) {
    exists t | t in flights :: Owes(flights[t], c)
  }

  ghost predicate FlightOk(s: Sys, f: Flight) {
    var c := f.order.clid;
    && c in s.used && f.order.size > 0
    && match f
       case Checking(_) => Untouched(s, c)
       case Passed(_) => Untouched(s, c)
       case Inserted(o) => c in s.orders && s.orders[c] == FreshEntry(o) && c !in s.filledFor && c !in s.canceledFor
       case Matched(o, fills) =>
         && c in s.orders && s.orders[c] == FreshEntry(o)
         && Get(s.filledFor, c) == Filled(fills) && c !in s.canceledFor
         && 0 <= Filled(fills) <= o.size && (Filled(fills) == 0 <==> fills == [])
       case Settled(_, _) => c in s.orders
  }

  ghost predicate Ledger(s: Sys) {
    && (forall t | t in s.flights :: FlightOk(s, s.flights[t]))
    && (forall t, u | t in s.flights && u in s.flights && t != u :: s.flights[t].order.clid != s.flights[u].order.clid)
    && (forall c | c in s.orders :: OwedBySome(s.flights, c) || BalancedAt(s, c))
    && (forall c | c !in s.used :: Untouched(s, c))
  }

  /** The discipline: fresh client ids, and no cancel of an order whose status is still owed. */
  ghost predicate Allowed(s: Sys, a: Action) {
    match a
    case Begin(_, o) => o.clid !in s.used
    case CancelOrder(c) => !OwedBySome(s.flights, c)
    case _ => true
  }

  ghost predicate Disciplined(s: Sys, actions: seq<Action>)
    decreases |actions|
  {
    actions == [] || (Allowed(s, actions[0]) && Disciplined(Next(s, actions[0]), actions[1..]))
  }

  /** Everything but the moved flight t and its client id c0 is as before. */
  ghost predicate OnlyMoves(s: Sys, r: Sys, t: nat, c0: string) {
    && t in s.flights && s.flights[t].order.clid == c0
    && r.used == s.used
    && (forall u | u != t :: u in r.flights <==> u in s.flights)
    && (forall u | u in s.flights && u != t :: r.flights[u] == s.flights[u])
    && (t in r.flights ==> r.flights[t].order.clid == c0)
    && SameOutside(s, r, c0)
  }

  ghost predicate SameOutside(s: Sys, r: Sys, c0: string) {
    forall c | c != c0 ::
      && (c in r.orders <==> c in s.orders) && (c in s.orders ==> r.orders[c] == s.orders[c])
      && (c in r.filledFor <==> c in s.filledFor) && (c in s.filledFor ==> r.filledFor[c] == s.filledFor[c])
      && (c in r.canceledFor <==> c in s.canceledFor) && (c in s.canceledFor ==> r.canceledFor[c] == s.canceledFor[c])
  }

  /** Moving one flight keeps the ledger if the flight and its own order are in order afterwards. */
  lemma LedgerMove(s: Sys, r: Sys, t: nat, c0: string)
    requires Ledger(s) && OnlyMoves(s, r, t, c0)
    requires t in r.flights ==> FlightOk(r, r.flights[t])
    requires c0 in r.orders ==> (t in r.flights && Owes(r.flights[t], c0)) || BalancedAt(r, c0)
    ensures Ledger(r)
  {
    assert FlightOk(s, s.flights[t]);
    forall c | c in r.orders ensures OwedBySome(r.flights, c) || BalancedAt(r, c) {
      if c != c0 {
        OthersStayAccounted(s, r, t, c0, c);
      } else if t in r.flights && Owes(r.flights[t], c0) {
        assert OwedBySome(r.flights, c0);
      }
    }
    forall u | u in r.flights && u != t ensures FlightOk(r, r.flights[u]) {
      assert FlightOk(s, s.flights[u]);
    }
  }

  lemma OthersStayAccounted(s: Sys, r: Sys, t: nat, c0: string, c: string)
    requires Ledger(s) && OnlyMoves(s, r, t, c0) && c in r.orders && c != c0
    ensures OwedBySome(r.flights, c) || BalancedAt(r, c)
  {
    assert OwedBySome(s.flights, c) || BalancedAt(s, c);
    if OwedBySome(s.flights, c) {
      var u :| u in s.flights && Owes(s.flights[u], c);
      assert u != t && u in r.flights && Owes(r.flights[u], c);
    }
  }

  /** A flight that owes nothing leaves its order's balance to the ledger. */
  lemma NotOwed(s: Sys, t: nat)
    requires Ledger(s) && t in s.flights && !Owes(s.flights[t], s.flights[t].order.clid)
    ensures s.flights[t].order.clid in s.orders ==> BalancedAt(s, s.flights[t].order.clid)
  {
  }

  /** A fresh client id is nobody's yet. */
  lemma FreshClid(s: Sys, c: string)
    requires Ledger(s) && c !in s.used
    ensures Untouched(s, c) && forall u | u in s.flights :: s.flights[u].order.clid != c
  {
    forall u | u in s.flights ensures s.flights[u].order.clid != c {
      assert FlightOk(s, s.flights[u]);
    }
  }

  lemma SameLedger(s: Sys, r: Sys)
    requires Ledger(s)
    requires r.orders == s.orders && r.flights == s.flights && r.filledFor == s.filledFor && r.canceledFor == s.canceledFor
    requires s.used <= r.used
    ensures Ledger(r)
  {
    forall t | t in r.flights ensures FlightOk(r, r.flights[t]) {
      assert FlightOk(s, s.flights[t]);
    }
    forall c | c in r.orders ensures OwedBySome(r.flights, c) || BalancedAt(r, c) {
      assert OwedBySome(s.flights, c) || BalancedAt(s, c);
    }
    forall c | c !in r.used ensures Untouched(r, c) {
      assert Untouched(s, c);
    }
  }

  lemma TakeOff(s: Sys, t: nat, o: Order)
    requires Ledger(s) && t !in s.flights && o.clid in s.used && o.size > 0 && Untouched(s, o.clid)
    requires forall u | u in s.flights :: s.flights[u].order.clid != o.clid
    ensures Ledger(At(s, t, Checking(o)))
  {
    var r := At(s, t, Checking(o));
    forall u | u in s.flights ensures FlightOk(r, r.flights[u]) {
      assert FlightOk(s, s.flights[u]);
    }
    forall c | c in r.orders ensures OwedBySome(r.flights, c) || BalancedAt(r, c) {
      assert OwedBySome(s.flights, c) || BalancedAt(s, c);
      if OwedBySome(s.flights, c) {
        var u :| u in s.flights && Owes(s.flights[u], c);
        assert u in r.flights && Owes(r.flights[u], c);
      }
    }
  }

  /** A submit refused for its size adds nothing to the ledger. */
  lemma LedgerRefuse(s: Sys, t: nat, o: Order)
    requires Ledger(s) && t !in s.flights && o.clid !in s.used && SizeProblem(s.policy, o.size).0
    ensures Ledger(AfterBegin(s, t, o))
  {
    FreshClid(s, o.clid);
    SameLedger(s, AfterBegin(s, t, o));
  }

  lemma LedgerBegin(s: Sys, t: nat, o: Order)
    requires Ledger(s) && t !in s.flights && o.clid !in s.used
    ensures Ledger(AfterBegin(s, t, o))
  {
    if SizeProblem(s.policy, o.size).0 {
      LedgerRefuse(s, t, o);
    } else {
      FreshClid(s, o.clid);
      var b := s.(started := s.started + 1, used := s.used + {o.clid});
      SameLedger(s, b);
      TakeOff(b, t, o);
      assert AfterBegin(s, t, o) == b.(flights := b.flights[t := Checking(o)]);
    }
  }

  lemma LedgerCheck(s: Sys, t: nat, o: Order)
    requires Ledger(s) && t in s.flights && s.flights[t] == Checking(o)
    ensures Ledger(AfterCheck(s, t, o))
  {
    assert FlightOk(s, s.flights[t]);
    LedgerMove(s, AfterCheck(s, t, o), t, o.clid);
  }

  lemma LedgerInsert(s: Sys, t: nat, o: Order)
    requires Ledger(s) && t in s.flights && s.flights[t] == Passed(o)
    ensures Ledger(AfterInsert(s, t, o))
  {
    assert FlightOk(s, s.flights[t]);
    LedgerMove(s, AfterInsert(s, t, o), t, o.clid);
  }

  lemma LedgerMatch(s: Sys, t: nat, o: Order)
    requires Ledger(s) && t in s.flights && s.flights[t] == Inserted(o)
    ensures Ledger(AfterMatch(s, t, o))
  {
    assert FlightOk(s, s.flights[t]);
    FillBound(o.clid, Opposite(SidesOf(s.books, o.symbol), o.side), o.size);
    LedgerMove(s, AfterMatch(s, t, o), t, o.clid);
  }

  lemma LedgerSettle(s: Sys, t: nat, o: Order, fills: seq<Fill>)
    requires Ledger(s) && t in s.flights && s.flights[t] == Matched(o, fills)
    ensures Ledger(AfterSettle(s, t, o, fills))
  {
    assert FlightOk(s, s.flights[t]);
    LedgerMove(s, AfterSettle(s, t, o, fills), t, o.clid);
  }

  lemma LedgerFinish(s: Sys, t: nat, fills: seq<Fill>)
    requires Ledger(s) && t in s.flights && s.flights[t].Settled?
    ensures Ledger(AfterFinish(s, t, fills))
  {
    NotOwed(s, t);
    LedgerMove(s, AfterFinish(s, t, fills), t, s.flights[t].order.clid);
  }

  lemma LedgerCancel(s: Sys, c0: string)
    requires Ledger(s) && Cancelable(s.orders, c0) && !OwedBySome(s.flights, c0)
    ensures Ledger(AfterCancel(s, c0))
  {
    var r := AfterCancel(s, c0);
    assert BalancedAt(s, c0) && BalancedAt(r, c0);
    assert SameOutside(s, r, c0);
    forall t | t in r.flights ensures FlightOk(r, r.flights[t]) {
      assert FlightOk(s, s.flights[t]);
    }
    forall c | c in r.orders && c != c0 ensures OwedBySome(r.flights, c) || BalancedAt(r, c) {
      assert OwedBySome(s.flights, c) || BalancedAt(s, c);
    }
  }

  lemma LedgerStep(s: Sys, a: Action)
    requires Ledger(s) && Allowed(s, a)
    ensures Ledger(Next(s, a))
  {
    if Fits(s, a) {
      match a {
        case Begin(t, o) => LedgerBegin(s, t, o);
        case CheckLimit(t) => LedgerCheck(s, t, s.flights[t].order);
        case InsertEntry(t) => LedgerInsert(s, t, s.flights[t].order);
        case MatchBook(t) => LedgerMatch(s, t, s.flights[t].order);
        case SettleEntry(t) => LedgerSettle(s, t, s.flights[t].order, s.flights[t].fills);
        case Finish(t) => LedgerFinish(s, t, s.flights[t].fills);
        case CancelOrder(clid) => LedgerCancel(s, clid);
        case FeedBook(ev) => LedgerFeed(s, ev);
      }
    }
  }

  lemma LedgerFeed(s: Sys, ev: Event)
    requires Ledger(s)
    ensures Ledger(s.(books := Feed(s.books, ev)))
  {
    SameLedger(s, s.(books := Feed(s.books, ev)));
  }

  lemma {:induction false} LedgerExec(s: Sys, actions: seq<Action>)
    requires Ledger(s) && Disciplined(s, actions)
    ensures Ledger(Exec(s, actions))
    decreases |actions|
  {
    if actions != [] {
      LedgerStep(s, actions[0]);
      LedgerExec(Next(s, actions[0]), actions[1..]);
    }
  }

  /** In every disciplined run each order is accounted for: original = filled + remaining + canceled
      with a status that says how, unless a submit still owes it the status update, and then the entry
      is as inserted, nothing of it is canceled, and no more than its size is filled. */
  lemma {:induction false} EveryUnitIsAccountedFor(s: Sys, actions: seq<Action>, c: string)
    requires Init(s) && Disciplined(s, actions) && c in Exec(s, actions).orders
    ensures var r := Exec(s, actions);
      var e, filled, canceled := r.orders[c], Get(r.filledFor, c), Get(r.canceledFor, c);
      if OwedBySome(r.flights, c) then
        e.status == NEW && e.remaining == e.original && canceled == 0 && 0 <= filled <= e.original
      else Balance(e, filled, canceled)
  {
    LedgerExec(s, actions);
    var r := Exec(s, actions);
    if OwedBySome(r.flights, c) {
      var t :| t in r.flights && Owes(r.flights[t], c);
      assert FlightOk(r, r.flights[t]);
    } else {
      assert BalancedAt(r, c);
    }
  }

  ghost predicate Terminal(s: Status) { s == FILLED || s == CANCELED }

  /** FILLED and CANCELED are never left. */
  lemma TerminalIsFinal(s: Sys, a: Action, c: string)
    requires Ledger(s) && Allowed(s, a) && c in s.orders && Terminal(s.orders[c].status)
    ensures c in Next(s, a).orders && Next(s, a).orders[c] == s.orders[c]
  {
    if Fits(s, a) && a.SettleEntry? {
      assert FlightOk(s, s.flights[a.tid]);
    }
  }

  lemma {:induction false} TerminalStays(s: Sys, actions: seq<Action>, c: string)
    requires Ledger(s) && Disciplined(s, actions) && c in s.orders && Terminal(s.orders[c].status)
    ensures c in Exec(s, actions).orders && Exec(s, actions).orders[c] == s.orders[c]
    decreases |actions|
  {
    if actions != [] {
      TerminalIsFinal(s, actions[0], c);
      LedgerStep(s, actions[0]);
      TerminalStays(Next(s, actions[0]), actions[1..], c);
    }
  }
}
