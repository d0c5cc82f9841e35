/** Byte strings cut at a delimiter: the receiver's token splitter
    (cpp/src/udp_receiver.cpp, split_sv) and the theory of splitting and joining
    that the journal, the replay parser and the backward file tail also rest on. */
module Delimited {
  import opened Prelude

  /** The tokens of s between delimiters; one token when there is no delimiter. */
  function Split(s: string, d: char): (tokens: seq<string>)
    ensures |tokens| > 0
  {
    if s == "" then [""]
    else
      var rest := Split(s[1..], d);
      if s[0] == d then [""] + rest else [[s[0]] + rest[0]] + rest[1..]
  }

  function Join(tokens: seq<string>, d: char): string {
    if |tokens| == 0 then ""
    else if |tokens| == 1 then tokens[0]
    else tokens[0] + ([d] + Join(tokens[1..], d))
  }

  ghost predicate FreeOf(tokens: seq<string>, d: char) {
    forall i :: 0 <= i < |tokens| ==> d !in tokens[i]
  }

  /** The first index of c at or after from, as std::string_view::find reports it. */
  function IndexOf(s: string, c: char, from: nat): (r: Option<nat>)
    requires from <= |s|
    ensures r.Some? ==> from <= r.value < |s| && s[r.value] == c && c !in s[from..r.value]
    ensures r.None? ==> c !in s[from..]
    decreases |s| - from
  {
    if from == |s| then None
    else if s[from] == c then Some(from)
    else
      var r := IndexOf(s, c, from + 1);
      assert s[from..] == [s[from]] + s[from + 1..];
      assert r.Some? ==> s[from..r.value] == [s[from]] + s[from + 1..r.value];
      r
  }

  /** split_sv: pos walks over the string, one token per iteration. */
  method SplitSv(sv: string, delim: char) returns (out: seq<string>)
    ensures out == Split(sv, delim)
  {
    out := [];
    var pos := 0;
    assert sv[0..] == sv;
    while pos <= |sv|
      invariant 0 <= pos <= |sv|
      invariant out + Split(sv[pos..], delim) == Split(sv, delim)
      decreases |sv| - pos
    {
      var next := IndexOf(sv, delim, pos);
      if next.None? {
        SplitWithout(sv[pos..], delim);
        out := out + [sv[pos..]];
        break;
      } else {
        CutAt(sv, delim, pos, next.value);
        MoveOne(out, sv[pos..next.value], Split(sv[next.value + 1..], delim));
        out := out + [sv[pos..next.value]];
        pos := next.value + 1;
      }
    }
  }

  lemma MoveOne(done: seq<string>, token: string, todo: seq<string>)
    ensures done + ([token] + todo) == (done + [token]) + todo
  {
  }

  lemma {:induction false} SplitWithout(s: string, d: char)
    requires d !in s
    ensures Split(s, d) == [s]
  {
    if s != "" {
      SplitWithout(s[1..], d);
      assert s == [s[0]] + s[1..];
    }
  }

  /** Two token lists whose last and first tokens merge. */
  function Glue(x: seq<string>, y: seq<string>): seq<string>
    requires |x| > 0 && |y| > 0
  {
    x[..|x| - 1] + [x[|x| - 1] + y[0]] + y[1..]
  }

  /** Splitting commutes with concatenation, except that the tokens at the seam merge. */
  lemma {:induction false} SplitConcat(a: string, b: string, d: char)
    ensures Split(a + b, d) == Glue(Split(a, d), Split(b, d))
  {
    var y := Split(b, d);
    if a == "" {
      assert a + b == b;
      assert [""][0] + y[0] == y[0];
      assert Glue([""], y) == y;
    } else {
      var u := Split(a[1..], d);
      assert (a + b)[1..] == a[1..] + b;
      SplitConcat(a[1..], b, d);
      if a[0] == d {
        assert Glue([""] + u, y) == [""] + Glue(u, y);
      } else {
        GlueHead(a[0], u, y);
      }
    }
  }

  lemma GlueHead(c: char, u: seq<string>, y: seq<string>)
    requires |u| > 0 && |y| > 0
    ensures var g := Glue(u, y);
      Glue([[c] + u[0]] + u[1..], y) == [[c] + g[0]] + g[1..]
  {
    var v := [[c] + u[0]] + u[1..];
    if |u| == 1 {
      assert v == [[c] + u[0]];
      assert ([c] + u[0]) + y[0] == [c] + (u[0] + y[0]);
    } else {
      assert v[..|v| - 1] == [[c] + u[0]] + u[1..|u| - 1];
      assert u[..|u| - 1] == [u[0]] + u[1..|u| - 1];
    }
  }

  lemma {:induction false} SplitFirst(token: string, rest: string, d: char)
    requires d !in token
    ensures Split(token + ([d] + rest), d) == [token] + Split(rest, d)
  {
    SplitWithout(token, d);
    SplitConcat(token, [d] + rest, d);
    assert ([d] + rest)[1..] == rest;
    assert token + "" == token;
  }

  lemma {:induction false} CutAt(s: string, d: char, from: nat, at: nat)
    requires from <= at < |s| && s[at] == d && d !in s[from..at]
    ensures Split(s[from..], d) == [s[from..at]] + Split(s[at + 1..], d)
  {
    assert s[from..] == s[from..at] + ([d] + s[at + 1..]);
    SplitFirst(s[from..at], s[at + 1..], d);
  }

  /** Joining the tokens gives back the input. */
  lemma {:induction false} JoinSplit(s: string, d: char)
    ensures Join(Split(s, d), d) == s
  {
    if s != "" {
      JoinSplit(s[1..], d);
      var rest := Split(s[1..], d);
      if s[0] == d {
        assert Split(s, d)[1..] == rest;
      } else if |rest| > 1 {
        assert Split(s, d)[1..] == rest[1..];
      }
      assert s == [s[0]] + s[1..];
    }
  }

  /** No token contains the delimiter, and there is one more token than delimiters. */
  lemma {:induction false} SplitShape(s: string, d: char)
    ensures FreeOf(Split(s, d), d)
    ensures |Split(s, d)| == multiset(s)[d] + 1
  {
    if s != "" {
      SplitShape(s[1..], d);
      assert s == [s[0]] + s[1..];
    }
  }

  /** Splitting undoes joining, so Split is the only inverse of Join on delimiter-free tokens. */
  lemma {:induction false} SplitJoin(tokens: seq<string>, d: char)
    requires |tokens| > 0 && FreeOf(tokens, d)
    ensures Split(Join(tokens, d), d) == tokens
  {
    if |tokens| == 1 {
      SplitWithout(tokens[0], d);
    } else {
      SplitJoin(tokens[1..], d);
      SplitFirst(tokens[0], Join(tokens[1..], d), d);
      assert tokens == [tokens[0]] + tokens[1..];
    }
  }

  /** A token that itself contains delimiters is cut in place; its neighbours are untouched. */
  lemma {:induction false} SplitAround(pre: seq<string>, mid: string, post: seq<string>, d: char)
    requires FreeOf(pre, d) && FreeOf(post, d)
    ensures Split(Join(pre + [mid] + post, d), d) == pre + Split(mid, d) + post
    decreases |pre|
  {
    if pre == [] {
      NothingBefore([mid]);
      NothingBefore(Split(mid, d));
      SplitHead(mid, post, d);
    } else {
      SplitAround(pre[1..], mid, post, d);
      ConsThree(pre, [mid], post);
      SplitCons(pre[0], pre[1..] + [mid] + post, d);
      ConsThree(pre, Split(mid, d), post);
    }
  }

  lemma NothingBefore(a: seq<string>)
    ensures [] + a == a
  {
  }

  lemma ConsThree(a: seq<string>, b: seq<string>, c: seq<string>)
    requires a != []
    ensures a + b + c == [a[0]] + (a[1..] + b + c)
  {
  }

  lemma {:induction false} SplitCons(token: string, rest: seq<string>, d: char)
    requires d !in token && rest != []
    ensures Split(Join([token] + rest, d), d) == [token] + Split(Join(rest, d), d)
  {
    assert ([token] + rest)[1..] == rest;
    SplitFirst(token, Join(rest, d), d);
  }

  lemma {:induction false} SplitHead(mid: string, post: seq<string>, d: char)
    requires FreeOf(post, d)
    ensures Split(Join([mid] + post, d), d) == Split(mid, d) + post
  {
    assert ([mid] + post)[1..] == post;
    if post == [] {
      assert Split(mid, d) + post == Split(mid, d);
    } else {
      SplitBefore(mid, post, d);
    }
  }

  lemma {:induction false} SplitBefore(mid: string, post: seq<string>, d: char)
    requires |post| > 0 && FreeOf(post, d)
    ensures Split(mid + ([d] + Join(post, d)), d) == Split(mid, d) + post
  {
    SplitJoin(post, d);
    var tail := [d] + Join(post, d);
    SplitFirst("", Join(post, d), d);
    assert "" + tail == tail;
    SplitConcat(mid, tail, d);
    GlueEmpty(Split(mid, d), post);
  }

  lemma GlueEmpty(x: seq<string>, post: seq<string>)
    requires |x| > 0
    ensures Glue(x, [""] + post) == x + post
  {
    assert x[|x| - 1] + "" == x[|x| - 1];
    assert ([""] + post)[1..] == post;
    assert x == x[..|x| - 1] + [x[|x| - 1]];
  }

  /** The contract of split_sv in one statement: the result is the unique list of
      delimiter-free tokens that joins back to the input. */
  lemma {:induction false} SplitIsTheOnlyParse(s: string, d: char, tokens: seq<string>)
    ensures |tokens| > 0 && FreeOf(tokens, d) && Join(tokens, d) == s <==> tokens == Split(s, d)
  {
    JoinSplit(s, d);
    SplitShape(s, d);
    if |tokens| > 0 && FreeOf(tokens, d) {
      SplitJoin(tokens, d);
    }
  }
}
