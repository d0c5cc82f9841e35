/** The matching loop of match_order (cpp/src/order_book.cpp) on one side of a book: it walks the
    levels from the best price, erasing exhausted ones, and never looks at the order's price. */
module Matching {
  import opened Prelude
  import opened Levels

  datatype Fill = Fill(clid: string, size: int, price: int)

  /** The fills of matching size units, best price first. */
  ghost function Fills(clid: string, ls: seq<Level>, size: int): seq<Fill> {
    if ls == [] || size <= 0 then []
    else if ls[0].size <= 0 then Fills(clid, ls[1..], size)
    else [Fill(clid, Min(ls[0].size, size), ls[0].price)] + Fills(clid, ls[1..], size - Min(ls[0].size, size))
  }

  /** The levels that remain. Levels without size are dropped when the walk meets them. */
  ghost function Rest(ls: seq<Level>, size: int): seq<Level> {
    if ls == [] || size <= 0 then ls
    else if ls[0].size <= size then Rest(ls[1..], size - (if ls[0].size > 0 then ls[0].size else 0))
    else [Level(ls[0].price, ls[0].size - size)] + ls[1..]
  }

  /** The loop, with it as the map iterator. */
  method MatchSide(clid: string, side: seq<Level>, size: int) returns (fills: seq<Fill>, levels: seq<Level>)
    requires size > 0
    ensures fills == Fills(clid, side, size) && levels == Rest(side, size)
  {
    fills, levels := [], side;
    var remaining := size;
    var it := 0;
    ghost var todo := Fills(clid, side, size);
    while it < |levels| && remaining > 0
      invariant 0 <= remaining && (it == 0 || remaining == 0)
      invariant Rest(side, size) == Rest(levels, remaining)
      invariant todo == Fills(clid, levels, remaining)
      invariant fills + todo == Fills(clid, side, size)
      decreases |levels|, remaining
    {
      var price, avail := levels[it].price, levels[it].size;
      assert levels[..it] + levels[it + 1..] == levels[1..];
      if avail <= 0 {
        levels := levels[..it] + levels[it + 1..];
        continue;
      }
      var take := Min(avail, remaining);
      fills := fills + [Fill(clid, take, price)];
      todo := todo[1..];
      remaining := remaining - take;
      avail := avail - take;
      if avail == 0 {
        levels := levels[..it] + levels[it + 1..];
      } else {
        levels := [Level(price, avail)] + levels[it + 1..];
        it := it + 1;
      }
    }
    assert todo == [];
  }

  // ---- totals -------------------------------------------------------------------

  ghost function Filled(fills: seq<Fill>): int {
    if fills == [] then 0 else fills[0].size + Filled(fills[1..])
  }

  ghost function Notional(fills: seq<Fill>): int {
    if fills == [] then 0 else fills[0].size * fills[0].price + Notional(fills[1..])
  }

  ghost function FilledAt(fills: seq<Fill>, price: int): int {
    if fills == [] then 0
    else (if fills[0].price == price then fills[0].size else 0) + FilledAt(fills[1..], price)
  }

  ghost function Total(ls: seq<Level>): int {
    if ls == [] then 0 else ls[0].size + Total(ls[1..])
  }

  ghost function RestingAt(ls: seq<Level>, price: int): int {
    if ls == [] then 0
    else (if ls[0].price == price then ls[0].size else 0) + RestingAt(ls[1..], price)
  }

  lemma {:induction false} TotalNonNegative(ls: seq<Level>)
    requires Positive(ls)
    ensures Total(ls) >= 0
  {
    if ls != [] { TotalNonNegative(ls[1..]); }
  }

  /** On positive levels an order fills exactly min(size, everything resting), and what is left
      is the rest of the total. */
  lemma {:induction false} FillsExactly(clid: string, ls: seq<Level>, size: int)
    requires Positive(ls) && size >= 0
    ensures Filled(Fills(clid, ls, size)) == Min(size, Total(ls))
    ensures Total(Rest(ls, size)) == Total(ls) - Min(size, Total(ls))
  {
    TotalNonNegative(ls);
    if ls != [] && size > 0 {
      TotalNonNegative(ls[1..]);
      FillsExactly(clid, ls[1..], size - Min(ls[0].size, size));
      if ls[0].size > size {
        assert Rest(ls, size)[1..] == ls[1..];
      }
    }
  }

  /** Never more than the order's size, on any levels; every fill is positive and is the client's. */
  lemma {:induction false} FillBound(clid: string, ls: seq<Level>, size: int)
    ensures var f := Fills(clid, ls, size);
      && (forall i | 0 <= i < |f| :: f[i].size > 0 && f[i].clid == clid)
      && 0 <= Filled(f) <= (if size > 0 then size else 0)
      && (Filled(f) == 0 <==> f == [])
  {
    if ls != [] && size > 0 {
      if ls[0].size <= 0 {
        FillBound(clid, ls[1..], size);
      } else {
        FillBound(clid, ls[1..], size - Min(ls[0].size, size));
      }
    }
  }

  /** The fills follow the levels from the best one on, one record each, and every level but the last
      one touched is filled completely. */
  lemma {:induction false} FillsWalkTheLevels(clid: string, ls: seq<Level>, size: int)
    requires Positive(ls)
    ensures var f := Fills(clid, ls, size);
      && |f| <= |ls|
      && (forall i | 0 <= i < |f| :: f[i].price == ls[i].price && f[i].size <= ls[i].size)
      && (forall i | 0 <= i < |f| - 1 :: f[i].size == ls[i].size)
  {
    if ls != [] && size > 0 {
      var take := Min(ls[0].size, size);
      var f, rest := Fills(clid, ls, size), Fills(clid, ls[1..], size - take);
      FillsWalkTheLevels(clid, ls[1..], size - take);
      assert f == [Fill(clid, take, ls[0].price)] + rest;
      if take < ls[0].size { assert rest == []; }
      forall i | 0 < i < |f|
        ensures f[i].price == ls[i].price && f[i].size <= ls[i].size && (i < |f| - 1 ==> f[i].size == ls[i].size)
      {
        assert f[i] == rest[i - 1] && ls[i] == ls[1..][i - 1];
      }
    }
  }

  /** At every price, what was resting is what was filled plus what remains. */
  lemma {:induction false} Conservation(clid: string, ls: seq<Level>, size: int, price: int)
    requires Positive(ls)
    ensures RestingAt(ls, price) == FilledAt(Fills(clid, ls, size), price) + RestingAt(Rest(ls, size), price)
  {
    if ls != [] && size > 0 {
      var take := Min(ls[0].size, size);
      Conservation(clid, ls[1..], size - take, price);
      if ls[0].size > size {
        assert Rest(ls, size)[1..] == ls[1..];
        assert Fills(clid, ls[1..], 0) == [];
      }
    }
  }

  // ---- splitting an order ---------------------------------------------------------

  /** Matching a and then b leaves the same levels as matching a + b once. */
  lemma {:induction false} RestComposes(ls: seq<Level>, a: int, b: int)
    requires a > 0 && b > 0
    ensures Rest(Rest(ls, a), b) == Rest(ls, a + b)
  {
    if ls != [] {
      if ls[0].size <= 0 {
        RestComposes(ls[1..], a, b);
      } else if ls[0].size < a {
        RestComposes(ls[1..], a - ls[0].size, b);
      } else if ls[0].size == a {
        assert Rest(ls, a) == ls[1..];
      } else {
        assert Rest(ls, a)[1..] == ls[1..];
      }
    }
  }

  /** ... and fills the same amount at each price. */
  lemma {:induction false} FillsCompose(clid: string, ls: seq<Level>, a: int, b: int, price: int)
    requires a > 0 && b > 0
    ensures FilledAt(Fills(clid, ls, a), price) + FilledAt(Fills(clid, Rest(ls, a), b), price)
            == FilledAt(Fills(clid, ls, a + b), price)
  {
    if ls != [] {
      if ls[0].size <= 0 {
        FillsCompose(clid, ls[1..], a, b, price);
      } else if ls[0].size < a {
        FillsCompose(clid, ls[1..], a - ls[0].size, b, price);
      } else if ls[0].size == a {
        assert Rest(ls, a) == ls[1..];
        assert Fills(clid, ls[1..], 0) == [];
      } else {
        assert Rest(ls, a)[1..] == ls[1..];
        assert Fills(clid, ls[1..], 0) == [];
      }
    }
  }

  // ---- optimality -----------------------------------------------------------------

  /** A way of taking units from the levels: take[i] from ls[i]. */
  ghost predicate Feasible(ls: seq<Level>, take: seq<int>) {
    |take| == |ls| && forall i | 0 <= i < |ls| :: 0 <= take[i] <= ls[i].size
  }

  ghost function Units(take: seq<int>): int {
    if take == [] then 0 else take[0] + Units(take[1..])
  }

  ghost function Cost(ls: seq<Level>, take: seq<int>): int
    requires |ls| == |take|
  {
    if ls == [] then 0 else take[0] * ls[0].price + Cost(ls[1..], take[1..])
  }

  /** What the loop takes from each level. */
  ghost function Greedy(ls: seq<Level>, size: int): (g: seq<int>)
    ensures |g| == |ls|
  {
    if ls == [] then []
    else
      var t := if size <= 0 || ls[0].size <= 0 then 0 else Min(ls[0].size, size);
      [t] + Greedy(ls[1..], size - t)
  }

  lemma {:induction false} GreedyIsFills(clid: string, ls: seq<Level>, size: int)
    ensures Units(Greedy(ls, size)) == Filled(Fills(clid, ls, size))
    ensures Cost(ls, Greedy(ls, size)) == Notional(Fills(clid, ls, size))
  {
    if ls != [] {
      var t := if size <= 0 || ls[0].size <= 0 then 0 else Min(ls[0].size, size);
      GreedyIsFills(clid, ls[1..], size - t);
      assert Greedy(ls, size)[1..] == Greedy(ls[1..], size - t);
      if size <= 0 { assert Fills(clid, ls[1..], size) == []; }
    }
  }

  lemma {:induction false} GreedyFeasible(ls: seq<Level>, size: int)
    requires Positive(ls)
    ensures Feasible(ls, Greedy(ls, size))
  {
    if ls != [] {
      var g, rest := Greedy(ls, size), Greedy(ls[1..], size - Greedy(ls, size)[0]);
      GreedyFeasible(ls[1..], size - g[0]);
      forall i | 0 < i < |ls| ensures 0 <= g[i] <= ls[i].size {
        assert g[i] == rest[i - 1] && ls[i] == ls[1..][i - 1];
      }
    }
  }

  /** The last level the loop touches. */
  ghost function Pivot(ls: seq<Level>, size: int): (k: nat)
    requires |ls| > 0
    ensures k < |ls|
  {
    if |ls| == 1 || size <= ls[0].size then 0 else 1 + Pivot(ls[1..], size - Greedy(ls, size)[0])
  }

  /** Levels before the pivot are exhausted, levels after it are untouched. */
  lemma {:induction false} PivotSeparates(ls: seq<Level>, size: int, i: nat)
    requires Positive(ls) && i < |ls|
    ensures i < Pivot(ls, size) ==> Greedy(ls, size)[i] == ls[i].size
    ensures i > Pivot(ls, size) ==> Greedy(ls, size)[i] == 0
  {
    var t := Greedy(ls, size)[0];
    if i > 0 {
      PivotSeparates(ls[1..], size - t, i - 1);
      if size <= ls[0].size { NothingLeft(ls[1..], size - t, i - 1); }
    }
  }

  lemma {:induction false} NothingLeft(ls: seq<Level>, size: int, i: nat)
    requires size <= 0 && i < |ls|
    ensures Greedy(ls, size)[i] == 0
  {
    if i > 0 { NothingLeft(ls[1..], size, i - 1); }
  }

  /** Moving a unit across the pivot never improves the cost: the exchange argument, summed. */
  lemma {:induction false} Exchange(desc: bool, ls: seq<Level>, a: seq<int>, g: seq<int>, m: int)
    requires |a| == |g| == |ls|
    requires forall i | 0 <= i < |ls| :: Exchanges(desc, a[i] - g[i], ls[i].price - m)
    ensures var d := Cost(ls, a) - Cost(ls, g) - m * (Units(a) - Units(g)); if desc then d <= 0 else d >= 0
  {
    if ls != [] {
      assert forall i | 0 <= i < |ls[1..]| :: a[1..][i] == a[i + 1] && g[1..][i] == g[i + 1] && ls[1..][i] == ls[i + 1];
      Exchange(desc, ls[1..], a[1..], g[1..], m);
      var x, p := a[0] - g[0], ls[0].price;
      assert Exchanges(desc, x, p - m);
      Expand(a[0], g[0], p, m, Units(a[1..]) - Units(g[1..]));
    }
  }

  ghost predicate Exchanges(desc: bool, moved: int, distance: int) {
    if desc then moved * distance <= 0 else moved * distance >= 0
  }

  lemma Expand(a: int, g: int, p: int, m: int, u: int)
    ensures a * p - g * p - m * (a - g + u) == (a - g) * (p - m) - m * u
  {
  }

  /** No other way of taking as many units costs less (asks), or brings in more (bids). */
  lemma {:induction false} GreedyIsOptimal(desc: bool, clid: string, ls: seq<Level>, size: int, take: seq<int>)
    requires Sorted(desc, ls) && Positive(ls) && Feasible(ls, take)
    requires Units(take) == Filled(Fills(clid, ls, size))
    ensures if desc then Cost(ls, take) <= Notional(Fills(clid, ls, size))
            else Notional(Fills(clid, ls, size)) <= Cost(ls, take)
    ensures Feasible(ls, Greedy(ls, size)) && Units(Greedy(ls, size)) == Filled(Fills(clid, ls, size))
    ensures Cost(ls, Greedy(ls, size)) == Notional(Fills(clid, ls, size))
  {
    GreedyIsFills(clid, ls, size);
    GreedyFeasible(ls, size);
    if ls != [] { PivotBeatsAll(desc, ls, size, take); }
  }

  lemma {:induction false} PivotBeatsAll(desc: bool, ls: seq<Level>, size: int, take: seq<int>)
    requires Sorted(desc, ls) && Positive(ls) && Feasible(ls, take) && ls != []
    requires Units(take) == Units(Greedy(ls, size)) && Feasible(ls, Greedy(ls, size))
    ensures if desc then Cost(ls, take) <= Cost(ls, Greedy(ls, size)) else Cost(ls, Greedy(ls, size)) <= Cost(ls, take)
  {
    var k, g := Pivot(ls, size), Greedy(ls, size);
    forall i | 0 <= i < |ls| ensures Exchanges(desc, take[i] - g[i], ls[i].price - ls[k].price) {
      PivotSeparates(ls, size, i);
      Signs(take[i] - g[i], ls[i].price - ls[k].price);
    }
    Exchange(desc, ls, take, g, ls[k].price);
  }

  lemma Signs(x: int, y: int)
    ensures (x >= 0 && y >= 0) || (x <= 0 && y <= 0) ==> x * y >= 0
    ensures (x >= 0 && y <= 0) || (x <= 0 && y >= 0) ==> x * y <= 0
  {
  }
}
