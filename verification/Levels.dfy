/** One side of a symbol's book: price levels in matching order, as std::map keeps them
    (cpp/src/order_book.cpp, SideBook). Bids are kept in descending price order. */
module Levels {
  import opened Prelude

  /** A price in cents and the size resting at it. */
  datatype Level = Level(price: int, size: int)

  /** The order of the map: std::greater for bids, std::less for asks. */
  predicate Before(desc: bool, p: int, q: int) { if desc then p > q else p < q }

  ghost predicate Sorted(desc: bool, ls: seq<Level>) {
    forall i, j | 0 <= i < j < |ls| :: Before(desc, ls[i].price, ls[j].price)
  }

  ghost predicate Positive(ls: seq<Level>) {
    forall i | 0 <= i < |ls| :: ls[i].size > 0
  }

  /** The levels as a map from price to size. */
  ghost function AsMap(ls: seq<Level>): map<int, int> {
    if ls == [] then map[] else AsMap(ls[1..])[ls[0].price := ls[0].size]
  }

  /** levels[p] = size: insert or overwrite. */
  function Put(desc: bool, ls: seq<Level>, p: int, size: int): seq<Level> {
    if ls == [] || Before(desc, p, ls[0].price) then [Level(p, size)] + ls
    else if ls[0].price == p then [Level(p, size)] + ls[1..]
    else [ls[0]] + Put(desc, ls[1..], p, size)
  }

  /** levels.erase(p). */
  function Erase(ls: seq<Level>, p: int): seq<Level> {
    if ls == [] then []
    else if ls[0].price == p then ls[1..]
    else [ls[0]] + Erase(ls[1..], p)
  }

  /** The best price: levels.begin(), if there is one. */
  function Best(ls: seq<Level>): Option<int> {
    if ls == [] then None else Some(ls[0].price)
  }

  lemma {:induction false} KeysAreBehind(desc: bool, ls: seq<Level>, p: int)
    requires Sorted(desc, ls) && p in AsMap(ls)
    ensures exists i :: 0 <= i < |ls| && ls[i].price == p && AsMap(ls)[p] == ls[i].size
  {
    if ls[0].price == p {
      assert ls[0].size == AsMap(ls)[p];
    } else {
      KeysAreBehind(desc, ls[1..], p);
      var i :| 0 <= i < |ls[1..]| && ls[1..][i].price == p && AsMap(ls[1..])[p] == ls[1..][i].size;
      assert ls[i + 1].price == p;
    }
  }

  lemma {:induction false} EntriesAreInMap(desc: bool, ls: seq<Level>, i: nat)
    requires Sorted(desc, ls) && i < |ls|
    ensures ls[i].price in AsMap(ls) && AsMap(ls)[ls[i].price] == ls[i].size
  {
    if i > 0 {
      EntriesAreInMap(desc, ls[1..], i - 1);
      assert ls[1..][i - 1] == ls[i];
    }
  }

  /** A level in front of sorted levels behind it. */
  lemma {:induction false} InFront(desc: bool, l: Level, rest: seq<Level>)
    requires Sorted(desc, rest) && forall m | m in rest :: Before(desc, l.price, m.price)
    ensures Sorted(desc, [l] + rest) && AsMap([l] + rest) == AsMap(rest)[l.price := l.size]
  {
    var ls := [l] + rest;
    assert ls[1..] == rest;
    forall i, j | 0 <= i < j < |ls| ensures Before(desc, ls[i].price, ls[j].price) {
      assert rest[j - 1] in rest;
    }
  }

  lemma {:induction false} PutIsUpdate(desc: bool, ls: seq<Level>, p: int, size: int)
    requires Sorted(desc, ls)
    ensures Sorted(desc, Put(desc, ls, p, size))
    ensures AsMap(Put(desc, ls, p, size)) == AsMap(ls)[p := size]
    ensures forall l | l in Put(desc, ls, p, size) :: l == Level(p, size) || l in ls
  {
    if ls == [] || Before(desc, p, ls[0].price) {
      InFront(desc, Level(p, size), ls);
    } else {
      var rest := ls[1..];
      if ls[0].price == p {
        InFront(desc, Level(p, size), rest);
      } else {
        PutIsUpdate(desc, rest, p, size);
        InFront(desc, ls[0], Put(desc, rest, p, size));
      }
    }
  }

  lemma {:induction false} EraseIsRemoval(desc: bool, ls: seq<Level>, p: int)
    requires Sorted(desc, ls)
    ensures Sorted(desc, Erase(ls, p))
    ensures AsMap(Erase(ls, p)) == AsMap(ls) - {p}
    ensures forall l | l in Erase(ls, p) :: l in ls
  {
    if ls != [] {
      if ls[0].price == p {
        if p in AsMap(ls[1..]) { KeysAreBehind(desc, ls[1..], p); }
      } else {
        EraseIsRemoval(desc, ls[1..], p);
        InFront(desc, ls[0], Erase(ls[1..], p));
      }
    }
  }

  /** A side is determined by its price-to-size map. */
  lemma {:induction false} SortedIsUnique(desc: bool, a: seq<Level>, b: seq<Level>)
    requires Sorted(desc, a) && Sorted(desc, b) && AsMap(a) == AsMap(b)
    ensures a == b
  {
    if a == [] {
      if b != [] { EntriesAreInMap(desc, b, 0); }
    } else {
      EntriesAreInMap(desc, a, 0);
      KeysAreBehind(desc, b, a[0].price);
      EntriesAreInMap(desc, b, 0);
      KeysAreBehind(desc, a, b[0].price);
      assert a[0] == b[0];
      if a[0].price in AsMap(a[1..]) { KeysAreBehind(desc, a[1..], a[0].price); }
      if b[0].price in AsMap(b[1..]) { KeysAreBehind(desc, b[1..], b[0].price); }
      assert AsMap(a[1..]) == AsMap(a) - {a[0].price};
      assert AsMap(b[1..]) == AsMap(b) - {b[0].price};
      SortedIsUnique(desc, a[1..], b[1..]);
      assert a == [a[0]] + a[1..] && b == [b[0]] + b[1..];
    }
  }
}
