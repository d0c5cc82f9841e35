/** What the order manager's counters add up to over whole runs (cpp/src/order_manager.cpp). */
module ManagerTotals {
  import opened Matching
  import opened OrderBook
  import opened OrderState
  import opened ManagerProtocol
  import BookRuns

  // ---- sums over maps -----------------------------------------------------------------

  ghost function SumOf<K>(keys: set<K>, m: map<K, int>): int
    requires keys <= m.Keys
    decreases keys
  {
    if keys == {} then 0
    else
      var k :| k in keys;
      m[k] + SumOf(keys - {k}, m)
  }

  ghost function Sum<K>(m: map<K, int>): int { SumOf(m.Keys, m) }

  /** Any key can be taken out first. */
  lemma {:induction false} SumPick<K>(keys: set<K>, m: map<K, int>, k: K)
    requires keys <= m.Keys && k in keys
    ensures SumOf(keys, m) == m[k] + SumOf(keys - {k}, m)
    decreases keys
  {
    var first :| first in keys && SumOf(keys, m) == m[first] + SumOf(keys - {first}, m);
    if first != k {
      SumPick(keys - {first}, m, k);
      SumPick(keys - {k}, m, first);
      assert keys - {first} - {k} == keys - {k} - {first};
    }
  }

  lemma {:induction false} SumAgrees<K>(keys: set<K>, m: map<K, int>, n: map<K, int>)
    requires keys <= m.Keys && keys <= n.Keys && forall k | k in keys :: m[k] == n[k]
    ensures SumOf(keys, m) == SumOf(keys, n)
    decreases keys
  {
    if keys != {} {
      var k :| k in keys;
      SumPick(keys, m, k);
      SumPick(keys, n, k);
      SumAgrees(keys - {k}, m, n);
    }
  }

  lemma {:induction false} SumUpdate<K>(m: map<K, int>, k: K, v: int)
    ensures Sum(m[k := v]) == Sum(m) - (if k in m then m[k] else 0) + v
  {
    SumPick(m[k := v].Keys, m[k := v], k);
    var others := m.Keys - {k};
    assert m[k := v].Keys - {k} == others;
    SumAgrees(others, m[k := v], m);
    if k in m { SumPick(m.Keys, m, k); } else { assert others == m.Keys; }
  }

  lemma {:induction false} SumRemove<K>(m: map<K, int>, k: K)
    requires k in m
    ensures Sum(m - {k}) == Sum(m) - m[k]
  {
    SumPick(m.Keys, m, k);
    assert (m - {k}).Keys == m.Keys - {k};
    SumAgrees(m.Keys - {k}, m - {k}, m);
  }

  // ---- filled volume --------------------------------------------------------------------

  /** What a submit was filled and has not yet reported. */
  ghost function Unreported(f: Flight): int {
    if f.Matched? || f.Settled? then Filled(f.fills) else 0
  }

  ghost function Pending(flights: map<nat, Flight>): map<nat, int> {
    map t | t in flights :: Unreported(flights[t])
  }

  lemma {:induction false} PendingUpdate(flights: map<nat, Flight>, t: nat, f: Flight)
    ensures Sum(Pending(flights[t := f]))
            == Sum(Pending(flights)) - (if t in flights then Unreported(flights[t]) else 0) + Unreported(f)
  {
    assert Pending(flights[t := f]) == Pending(flights)[t := Unreported(f)];
    SumUpdate(Pending(flights), t, Unreported(f));
  }

  lemma {:induction false} PendingRemove(flights: map<nat, Flight>, t: nat)
    requires t in flights
    ensures Sum(Pending(flights - {t})) == Sum(Pending(flights)) - Unreported(flights[t])
  {
    assert Pending(flights - {t}) == Pending(flights) - {t};
    SumRemove(Pending(flights), t);
  }

  ghost predicate VolumeInv(s: Sys) {
    s.counters.filledVolume + Sum(Pending(s.flights)) == Sum(s.filledFor)
  }

  /** A step that moves flight t, reports no fills and gives out none. */
  ghost predicate MovesQuietly(s: Sys, r: Sys, t: nat) {
    && r.counters.filledVolume == s.counters.filledVolume && r.filledFor == s.filledFor
    && ((t in s.flights && Unreported(s.flights[t]) == 0 && r.flights == s.flights - {t})
        || (exists f :: MovesTo(s.flights, r.flights, t, f)))
  }

  ghost predicate MovesTo(flights: map<nat, Flight>, flights': map<nat, Flight>, t: nat, f: Flight) {
    flights' == flights[t := f] && Unreported(f) == if t in flights then Unreported(flights[t]) else 0
  }

  lemma {:induction false} QuietMove(s: Sys, r: Sys, t: nat)
    requires VolumeInv(s) && MovesQuietly(s, r, t)
    ensures VolumeInv(r)
  {
    if t in s.flights && Unreported(s.flights[t]) == 0 && r.flights == s.flights - {t} {
      PendingRemove(s.flights, t);
    } else {
      var f :| MovesTo(s.flights, r.flights, t, f);
      PendingUpdate(s.flights, t, f);
    }
  }

  lemma {:induction false} VolumeMatch(s: Sys, t: nat, o: Order)
    requires VolumeInv(s) && t in s.flights && s.flights[t] == Inserted(o)
    ensures VolumeInv(AfterMatch(s, t, o))
  {
    var fills := MatchFills(s.books, o);
    PendingUpdate(s.flights, t, Matched(o, fills));
    SumUpdate(s.filledFor, o.clid, Get(s.filledFor, o.clid) + Filled(fills));
  }

  lemma {:induction false} VolumeFinish(s: Sys, t: nat, fills: seq<Fill>)
    requires VolumeInv(s) && t in s.flights && s.flights[t].Settled? && s.flights[t].fills == fills
    ensures VolumeInv(AfterFinish(s, t, fills))
  {
    PendingRemove(s.flights, t);
  }

  lemma {:induction false} VolumeStep(s: Sys, a: Action)
    requires VolumeInv(s)
    ensures VolumeInv(Next(s, a))
  {
    if Fits(s, a) {
      match a {
        case Begin(t, o) => VolumeBegin(s, t, o);
        case CheckLimit(t) => VolumeCheck(s, t, s.flights[t].order);
        case InsertEntry(t) => VolumeInsert(s, t, s.flights[t].order);
        case MatchBook(t) => VolumeMatch(s, t, s.flights[t].order);
        case SettleEntry(t) => VolumeSettle(s, t, s.flights[t].order, s.flights[t].fills);
        case Finish(t) => VolumeFinish(s, t, s.flights[t].fills);
        case CancelOrder(c) => assert VolumeInv(AfterCancel(s, c));
        case FeedBook(_) =>
      }
    }
  }

  lemma {:induction false} VolumeBegin(s: Sys, t: nat, o: Order)
    requires VolumeInv(s) && t !in s.flights
    ensures VolumeInv(AfterBegin(s, t, o))
  {
    if !SizeProblem(s.policy, o.size).0 {
      assert MovesTo(s.flights, s.flights[t := Checking(o)], t, Checking(o));
      QuietMove(s, AfterBegin(s, t, o), t);
    }
  }

  lemma {:induction false} VolumeCheck(s: Sys, t: nat, o: Order)
    requires VolumeInv(s) && t in s.flights && s.flights[t] == Checking(o)
    ensures VolumeInv(AfterCheck(s, t, o))
  {
    assert MovesTo(s.flights, s.flights[t := Passed(o)], t, Passed(o));
    QuietMove(s, AfterCheck(s, t, o), t);
  }

  lemma {:induction false} VolumeInsert(s: Sys, t: nat, o: Order)
    requires VolumeInv(s) && t in s.flights && s.flights[t] == Passed(o)
    ensures VolumeInv(AfterInsert(s, t, o))
  {
    assert MovesTo(s.flights, s.flights[t := Inserted(o)], t, Inserted(o));
    QuietMove(s, AfterInsert(s, t, o), t);
  }

  lemma {:induction false} VolumeSettle(s: Sys, t: nat, o: Order, fills: seq<Fill>)
    requires VolumeInv(s) && t in s.flights && s.flights[t] == Matched(o, fills)
    ensures VolumeInv(AfterSettle(s, t, o, fills))
  {
    assert MovesTo(s.flights, s.flights[t := Settled(o, fills)], t, Settled(o, fills));
    QuietMove(s, AfterSettle(s, t, o, fills), t);
  }

  lemma {:induction false} VolumeExec(s: Sys, actions: seq<Action>)
    requires VolumeInv(s)
    ensures VolumeInv(Exec(s, actions))
    decreases |actions|
  {
    if actions != [] {
      VolumeStep(s, actions[0]);
      VolumeExec(Next(s, actions[0]), actions[1..]);
    }
  }

  /** When no submit is in flight, the reported volume is what the book gave out to all client ids. */
  lemma {:induction false} VolumeIsWhatWasFilled(s: Sys, actions: seq<Action>)
    requires Init(s)
    ensures var r := Exec(s, actions);
      r.flights == map[] ==> r.counters.filledVolume == Sum(r.filledFor)
  {
    assert Pending(s.flights) == map[];
    VolumeExec(s, actions);
    if Exec(s, actions).flights == map[] { assert Pending(Exec(s, actions).flights) == map[]; }
  }

  // ---- what was counted -----------------------------------------------------------------

  /** The fills of the submits that finish in a run, in the order in which they finish. */
  ghost function Finished(s: Sys, actions: seq<Action>): seq<seq<Fill>>
    decreases |actions|
  {
    if actions == [] then []
    else
      var a := actions[0];
      (if a.Finish? && a.tid in s.flights && s.flights[a.tid].Settled? then [s.flights[a.tid].fills] else [])
      + Finished(Next(s, a), actions[1..])
  }

  /** How many cancels find an order that is neither filled nor canceled. */
  ghost function Cancels(s: Sys, actions: seq<Action>): nat
    decreases |actions|
  {
    if actions == [] then 0
    else
      (if actions[0].CancelOrder? && IsLive(s.orders, actions[0].clid) then 1 else 0)
      + Cancels(Next(s, actions[0]), actions[1..])
  }

  ghost function Records(fills: seq<seq<Fill>>): nat { if fills == [] then 0 else |fills[0]| + Records(fills[1..]) }

  ghost function Volume(fills: seq<seq<Fill>>): int { if fills == [] then 0 else Filled(fills[0]) + Volume(fills[1..]) }

  /** What a single step counts: only a finishing submit is accepted and reports its fills, only a
      cancel of a live order is counted as a cancel, and nothing is ever uncounted. */
  lemma {:induction false} StepCounts(s: Sys, a: Action)
    ensures var c, d := s.counters, Next(s, a).counters;
      if a.Finish? && a.tid in s.flights && s.flights[a.tid].Settled? then
        var fills := s.flights[a.tid].fills;
        && d.accepted == c.accepted + 1 && d.fillRecords == c.fillRecords + |fills|
        && d.filledVolume == c.filledVolume + Filled(fills) && d.canceled == c.canceled
      else
        && d.accepted == c.accepted && d.fillRecords == c.fillRecords && d.filledVolume == c.filledVolume
        && d.canceled == c.canceled + (if a.CancelOrder? && IsLive(s.orders, a.clid) then 1 else 0)
  {
    if a.CancelOrder? {
      if IsLive(s.orders, a.clid) { CancelEndsLive(s, a.clid); } else { CancelSparesOthers(s, a.clid); }
    } else if a.Finish? {
      FinishCounts(s, a.tid);
    } else {
      OthersCountNothing(s, a);
    }
  }

  lemma {:induction false} FinishCounts(s: Sys, t: nat)
    ensures Next(s, Finish(t)) ==
      if t in s.flights && s.flights[t].Settled? then AfterFinish(s, t, s.flights[t].fills) else s
  {
  }

  lemma {:induction false} OthersCountNothing(s: Sys, a: Action)
    requires !a.Finish? && !a.CancelOrder?
    ensures var c, d := s.counters, Next(s, a).counters;
      && d.accepted == c.accepted && d.fillRecords == c.fillRecords
      && d.filledVolume == c.filledVolume && d.canceled == c.canceled
  {
    if Fits(s, a) {
      match a {
        case Begin(t, o) => assert Next(s, a) == AfterBegin(s, t, o);
        case CheckLimit(t) => assert Next(s, a) == AfterCheck(s, t, s.flights[t].order);
        case InsertEntry(t) => assert Next(s, a) == AfterInsert(s, t, s.flights[t].order);
        case MatchBook(t) => assert Next(s, a) == AfterMatch(s, t, s.flights[t].order);
        case SettleEntry(t) => assert Next(s, a) == AfterSettle(s, t, s.flights[t].order, s.flights[t].fills);
        case FeedBook(ev) => assert Next(s, a).counters == s.counters;
      }
    }
  }

  /** Over every run: accepted are the submits that finished, with their fill records and volume, and
      canceled are the cancels of live orders. */
  lemma {:induction false} CountersTally(s: Sys, actions: seq<Action>)
    ensures var c, d, done := s.counters, Exec(s, actions).counters, Finished(s, actions);
      && d.accepted == c.accepted + |done| && d.fillRecords == c.fillRecords + Records(done)
      && d.filledVolume == c.filledVolume + Volume(done) && d.canceled == c.canceled + Cancels(s, actions)
    decreases |actions|
  {
    if actions != [] {
      var a, rest := actions[0], actions[1..];
      StepCounts(s, a);
      CountersTally(Next(s, a), rest);
      var done := Finished(Next(s, a), rest);
      if a.Finish? && a.tid in s.flights && s.flights[a.tid].Settled? {
        assert ([s.flights[a.tid].fills] + done)[1..] == done;
      } else {
        assert [] + done == done;
      }
    }
  }

  // ---- the book under the manager ---------------------------------------------------------

  /** The calls on the book that a run makes, in order. */
  ghost function BookCalls(s: Sys, actions: seq<Action>): seq<BookRuns.Call>
    decreases |actions|
  {
    if actions == [] then []
    else
      (match actions[0]
       case FeedBook(ev) => [BookRuns.FeedCall(ev)]
       case MatchBook(t) => if t in s.flights && s.flights[t].Inserted? then [BookRuns.MatchCall(s.flights[t].order)] else []
       case _ => [])
      + BookCalls(Next(s, actions[0]), actions[1..])
  }

  /** The manager's interleavings change the book only by the feed and by one match per submit that
      entered its order; so whatever holds in every run of the book holds in these. */
  lemma {:induction false} BooksAreARun(s: Sys, actions: seq<Action>)
    ensures Exec(s, actions).books == BookRuns.Run(s.books, BookCalls(s, actions))
    decreases |actions|
  {
    if actions != [] {
      var a, rest := actions[0], actions[1..];
      BooksAreARun(Next(s, a), rest);
      StepOnBook(s, a);
      var calls := BookCalls(Next(s, a), rest);
      if Next(s, a).books == s.books && BookCalls(s, actions) == [] + calls {
        assert [] + calls == calls;
      } else {
        assert BookCalls(s, actions)[1..] == calls;
      }
    }
  }

  lemma {:induction false} StepOnBook(s: Sys, a: Action)
    ensures Next(s, a).books ==
      if a.FeedBook? then Feed(s.books, a.ev)
      else if a.MatchBook? && a.tid in s.flights && s.flights[a.tid].Inserted? then MatchBooks(s.books, s.flights[a.tid].order)
      else s.books
  {
    if !a.MatchBook? { OnlyMatchAndFeed(s, a); }
  }

  lemma {:induction false} OnlyMatchAndFeed(s: Sys, a: Action)
    requires !a.MatchBook?
    ensures Next(s, a).books == if a.FeedBook? then Feed(s.books, a.ev) else s.books
  {
  }

  /** In particular no interleaving of submits, cancels and feed ever crosses the book. */
  lemma {:induction false} ManagedBookStaysUncrossed(s: Sys, actions: seq<Action>)
    requires BookRuns.GoodBooks(s.books)
    ensures BookRuns.GoodBooks(Exec(s, actions).books)
  {
    BooksAreARun(s, actions);
    BookRuns.RunsStayUncrossed(s.books, BookCalls(s, actions), "");
  }
}
