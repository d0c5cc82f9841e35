/** The conventional optional value, used where the program returns a success flag and an
    out-parameter, a NaN, or std::string::npos; and the smaller of two numbers. */
module Prelude {
  datatype Option<+T> = None | Some(value: T)

  function Min(a: int, b: int): int { if a <= b then a else b }

  /** The values that are there, in order: what a loop with a skip branch collects. */
  function Somes<T>(xs: seq<Option<T>>): seq<T> {
    if xs == [] then [] else (if xs[0].Some? then [xs[0].value] else []) + Somes(xs[1..])
  }

  lemma {:induction false} SomesConcat<T>(a: seq<Option<T>>, b: seq<Option<T>>)
    ensures Somes(a + b) == Somes(a) + Somes(b)
  {
    if a == [] {
      assert a + b == b;
    } else {
      assert (a + b)[0] == a[0] && (a + b)[1..] == a[1..] + b;
      SomesConcat(a[1..], b);
    }
  }

  lemma SomesSnoc<T>(xs: seq<Option<T>>, i: nat)
    requires i < |xs|
    ensures Somes(xs[..i + 1]) == Somes(xs[..i]) + (if xs[i].Some? then [xs[i].value] else [])
  {
    assert xs[..i + 1] == xs[..i] + [xs[i]];
    SomesConcat(xs[..i], [xs[i]]);
    assert [xs[i]][1..] == [];
  }

  lemma {:induction false} SomesAll<T>(xs: seq<Option<T>>, ys: seq<T>)
    requires |xs| == |ys| && forall i | 0 <= i < |xs| :: xs[i] == Some(ys[i])
    ensures Somes(xs) == ys
  {
    if xs != [] { SomesAll(xs[1..], ys[1..]); }
  }

  /** Nothing is gained, and when nothing is lost every value stays in its place. */
  lemma {:induction false} SomesBound<T>(xs: seq<Option<T>>)
    ensures |Somes(xs)| <= |xs|
    ensures |Somes(xs)| == |xs| ==> forall i | 0 <= i < |xs| :: xs[i] == Some(Somes(xs)[i])
  {
    if xs != [] { SomesBound(xs[1..]); }
  }

  lemma {:induction false} SomesMember<T>(xs: seq<Option<T>>, j: nat)
    requires j < |Somes(xs)|
    ensures exists i :: 0 <= i < |xs| && xs[i] == Some(Somes(xs)[j])
  {
    if xs[0].Some? && j == 0 {
      assert xs[0] == Some(Somes(xs)[0]);
    } else {
      var k := if xs[0].Some? then j - 1 else j;
      SomesMember(xs[1..], k);
      var i :| 0 <= i < |xs[1..]| && xs[1..][i] == Some(Somes(xs[1..])[k]);
      assert xs[i + 1] == Some(Somes(xs)[j]);
    }
  }
}
