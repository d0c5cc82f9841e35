/** The journal's gather-write loop (cpp/src/udp_receiver.cpp, writev_all): partial writes,
    interrupted calls, and at most 64 buffers offered per call. */
module GatherWrite {
  import opened Prelude

  /** What the kernel answers to one writev call. Wrote(n) stands for n bytes, or for all the
      offered ones when fewer are offered. */
  datatype Outcome = Wrote(n: nat) | Interrupted | Failed

  const CHUNK: nat := 64

  function Flatten(bufs: seq<string>): string {
    if bufs == [] then "" else bufs[0] + Flatten(bufs[1..])
  }

  /** The next byte to write is offset bytes into buffer idx; written counts the bytes so far. */
  datatype Cursor = Cursor(idx: nat, offset: nat, written: nat)

  ghost predicate At(bufs: seq<string>, c: Cursor) {
    && c.idx <= |bufs|
    && (c.idx < |bufs| ==> c.offset == 0 || c.offset < |bufs[c.idx]|)
    && (c.idx == |bufs| ==> c.offset == 0)
    && c.written == |Flatten(bufs[..c.idx])| + c.offset
  }

  /** The buffers offered to the kernel: what is left of buffer idx and up to 63 more. */
  function Window(bufs: seq<string>, idx: nat, offset: nat): seq<string>
    requires idx < |bufs| && offset <= |bufs[idx]|
  {
    [bufs[idx][offset..]] + bufs[idx + 1..Min(|bufs|, idx + CHUNK)]
  }

  /** Moving the cursor over n bytes; empty buffers are skipped only while bytes remain. */
  function Advance(bufs: seq<string>, c: Cursor, n: nat): Cursor
    decreases |bufs| - c.idx, n
  {
    if n == 0 || c.idx >= |bufs| then c
    else
      var avail := |bufs[c.idx]| - c.offset;
      if n < avail then Cursor(c.idx, c.offset + n, c.written + n)
      else if avail < 0 then c
      else Advance(bufs, Cursor(c.idx + 1, 0, c.written + avail), n - avail)
  }

  lemma {:induction false} FlattenConcat(a: seq<string>, b: seq<string>)
    ensures Flatten(a + b) == Flatten(a) + Flatten(b)
  {
    if a == [] {
      assert a + b == b;
    } else {
      assert (a + b)[1..] == a[1..] + b;
      FlattenConcat(a[1..], b);
    }
  }

  lemma PrefixConcat(bufs: seq<string>, i: nat, j: nat)
    requires i <= j <= |bufs|
    ensures Flatten(bufs[..j]) == Flatten(bufs[..i]) + Flatten(bufs[i..j])
  {
    assert bufs[..j] == bufs[..i] + bufs[i..j];
    FlattenConcat(bufs[..i], bufs[i..j]);
  }

  lemma PrefixStep(bufs: seq<string>, i: nat)
    requires i < |bufs|
    ensures Flatten(bufs[..i + 1]) == Flatten(bufs[..i]) + bufs[i]
  {
    PrefixConcat(bufs, i, i + 1);
    assert bufs[i..i + 1] == [bufs[i]];
    assert Flatten([bufs[i]]) == bufs[i] + Flatten([]);
  }

  lemma {:induction false} WholeConcat(bufs: seq<string>, i: nat)
    requires i <= |bufs|
    ensures Flatten(bufs) == Flatten(bufs[..i]) + Flatten(bufs[i..])
    ensures i < |bufs| ==> Flatten(bufs[i..]) == bufs[i] + Flatten(bufs[i + 1..])
  {
    assert bufs == bufs[..i] + bufs[i..];
    FlattenConcat(bufs[..i], bufs[i..]);
    if i < |bufs| { assert bufs[i..][1..] == bufs[i + 1..]; }
  }

  lemma {:induction false} AtBound(bufs: seq<string>, c: Cursor)
    requires At(bufs, c)
    ensures c.written <= |Flatten(bufs)|
    ensures c.written == |Flatten(bufs)| ==> Flatten(bufs[c.idx..]) == ""
  {
    WholeConcat(bufs, c.idx);
  }

  /** The cursor lands exactly n bytes further. */
  lemma {:induction false} AdvanceLands(bufs: seq<string>, c: Cursor, n: nat)
    requires At(bufs, c) && c.written + n <= |Flatten(bufs)|
    ensures At(bufs, Advance(bufs, c, n)) && Advance(bufs, c, n).written == c.written + n
    decreases |bufs| - c.idx, n
  {
    assert bufs[..|bufs|] == bufs;
    if n > 0 && c.idx < |bufs| {
      PrefixStep(bufs, c.idx);
      var avail := |bufs[c.idx]| - c.offset;
      if n >= avail {
        AdvanceLands(bufs, Cursor(c.idx + 1, 0, c.written + avail), n - avail);
      }
    }
  }

  /** The offered bytes are the next bytes of the whole. */
  lemma {:induction false} WindowIsNext(bufs: seq<string>, c: Cursor)
    requires At(bufs, c) && c.idx < |bufs|
    ensures c.written <= |Flatten(bufs)| && Flatten(Window(bufs, c.idx, c.offset)) <= Flatten(bufs)[c.written..]
  {
    var end := Min(|bufs|, c.idx + CHUNK);
    WholeConcat(bufs, c.idx);
    TailConcat(bufs, c.idx + 1, end);
    var p, a, m, e := Flatten(bufs[..c.idx]), bufs[c.idx], Flatten(bufs[c.idx + 1..end]), Flatten(bufs[end..]);
    assert Flatten(bufs) == p + (a + (m + e));
    assert Flatten(Window(bufs, c.idx, c.offset)) == a[c.offset..] + m by {
      assert Window(bufs, c.idx, c.offset)[1..] == bufs[c.idx + 1..end];
    }
    DropPrefix(p, a, m, e, c.offset);
  }

  lemma TailConcat(bufs: seq<string>, i: nat, j: nat)
    requires i <= j <= |bufs|
    ensures Flatten(bufs[i..]) == Flatten(bufs[i..j]) + Flatten(bufs[j..])
  {
    assert bufs[i..] == bufs[i..j] + bufs[j..];
    FlattenConcat(bufs[i..j], bufs[j..]);
  }

  lemma DropPrefix(p: string, a: string, m: string, e: string, k: nat)
    requires k <= |a|
    ensures a[k..] + m <= (p + (a + (m + e)))[|p| + k..]
  {
  }

  // ---- the loop, as a function of the kernel's answers ---------------------------

  function AfterCall(bufs: seq<string>, c: Cursor, o: Outcome): Cursor
  {
    if o.Wrote? && c.idx < |bufs| && c.offset <= |bufs[c.idx]| then
      Advance(bufs, c, Min(o.n, |Flatten(Window(bufs, c.idx, c.offset))|))
    else c
  }

  /** The cursor after the first k calls. */
  function AfterCalls(bufs: seq<string>, kernel: nat -> Outcome, k: nat): Cursor {
    if k == 0 then Cursor(0, 0, 0) else AfterCall(bufs, AfterCalls(bufs, kernel, k - 1), kernel(k - 1))
  }

  /** The bytes that the first k calls emit. */
  function Out(bufs: seq<string>, kernel: nat -> Outcome, k: nat): string {
    if k == 0 then "" else Out(bufs, kernel, k - 1) + Emitted(bufs, AfterCalls(bufs, kernel, k - 1), kernel(k - 1))
  }

  /** What one call emits: the offered bytes, as many as the kernel takes. */
  function Emitted(bufs: seq<string>, c: Cursor, o: Outcome): string {
    if o.Wrote? && c.idx < |bufs| && c.offset <= |bufs[c.idx]| then
      var offered := Flatten(Window(bufs, c.idx, c.offset));
      offered[..Min(o.n, |offered|)]
    else ""
  }

  /** After every call, whatever the kernel answered and whether or not the loop ever finishes, the
      bytes out are the first bytes of the whole, as many as the cursor has counted. */
  lemma {:induction false} EmittedIsPrefix(bufs: seq<string>, kernel: nat -> Outcome, k: nat)
    ensures var c := AfterCalls(bufs, kernel, k);
      At(bufs, c) && c.written <= |Flatten(bufs)| && Out(bufs, kernel, k) == Flatten(bufs)[..c.written]
  {
    if k > 0 {
      EmittedIsPrefix(bufs, kernel, k - 1);
      var c, o := AfterCalls(bufs, kernel, k - 1), kernel(k - 1);
      if o.Wrote? && c.idx < |bufs| {
        EmitNext(bufs, c, Min(o.n, |Flatten(Window(bufs, c.idx, c.offset))|));
      }
    } else {
      assert bufs[..0] == [];
    }
  }

  /** One call emits as many of the offered bytes as the kernel takes, and a call that is interrupted
      or fails emits none; offered is what is left of the current buffer and of up to 63 more. */
  lemma {:induction false} EveryByteCounts(bufs: seq<string>, kernel: nat -> Outcome, k: nat)
    requires AfterCalls(bufs, kernel, k).idx < |bufs|
    ensures var c, o := AfterCalls(bufs, kernel, k), kernel(k);
      var offered := |Flatten(bufs[c.idx..Min(|bufs|, c.idx + 64)])| - c.offset;
      |Out(bufs, kernel, k + 1)| == |Out(bufs, kernel, k)| + (if o.Wrote? then Min(o.n, offered) else 0)
  {
    EmittedIsPrefix(bufs, kernel, k);
    var c, o := AfterCalls(bufs, kernel, k), kernel(k);
    OfferedLength(bufs, c);
    EmittedLength(bufs, c, o);
    assert Out(bufs, kernel, k + 1) == Out(bufs, kernel, k) + Emitted(bufs, c, o);
  }

  lemma EmittedLength(bufs: seq<string>, c: Cursor, o: Outcome)
    requires At(bufs, c) && c.idx < |bufs|
    ensures |Emitted(bufs, c, o)| == if o.Wrote? then Min(o.n, |Flatten(Window(bufs, c.idx, c.offset))|) else 0
  {
  }

  lemma {:induction false} OfferedLength(bufs: seq<string>, c: Cursor)
    requires At(bufs, c) && c.idx < |bufs|
    ensures |Flatten(Window(bufs, c.idx, c.offset))| == |Flatten(bufs[c.idx..Min(|bufs|, c.idx + 64)])| - c.offset
  {
    var rest := bufs[c.idx + 1..Min(|bufs|, c.idx + 64)];
    assert bufs[c.idx..Min(|bufs|, c.idx + 64)] == [bufs[c.idx]] + rest;
    assert Window(bufs, c.idx, c.offset) == [bufs[c.idx][c.offset..]] + rest;
    HeadLength(bufs[c.idx], rest);
    HeadLength(bufs[c.idx][c.offset..], rest);
  }

  /** The loop is over after k calls: everything is written, or the last call failed. */
  ghost predicate Over(bufs: seq<string>, kernel: nat -> Outcome, k: nat) {
    AfterCalls(bufs, kernel, k).written == |Flatten(bufs)| || (k > 0 && kernel(k - 1) == Failed)
  }

  /** 64 consecutive empty buffers in front of a non-empty one. */
  ghost predicate GapAt(bufs: seq<string>, g: nat) {
    && g + CHUNK < |bufs|
    && (forall i | g <= i < g + CHUNK :: bufs[i] == "")
    && exists k | g + CHUNK <= k < |bufs| :: bufs[k] != ""
  }

  /** From some call on, no interrupted call and no zero-byte write. */
  ghost predicate QuietFrom(kernel: nat -> Outcome, q: nat) {
    forall i: nat | i >= q :: kernel(i) != Interrupted && kernel(i) != Wrote(0)
  }

  lemma {:induction false} FlattenEmpty(bufs: seq<string>)
    ensures Flatten(bufs) == "" <==> forall i | 0 <= i < |bufs| :: bufs[i] == ""
  {
    if bufs != [] {
      FlattenEmpty(bufs[1..]);
      assert forall i | 0 < i < |bufs| :: bufs[i] == bufs[1..][i - 1];
    }
  }

  /** Without a gap, every unfinished call offers at least one byte. */
  lemma {:induction false} OffersSomething(bufs: seq<string>, c: Cursor)
    requires At(bufs, c) && c.written < |Flatten(bufs)|
    requires forall g: nat :: !GapAt(bufs, g)
    ensures c.idx < |bufs| && Flatten(Window(bufs, c.idx, c.offset)) != ""
  {
    AtBound(bufs, c);
    WholeConcat(bufs, c.idx);
    if Flatten(Window(bufs, c.idx, c.offset)) == "" {
      EmptyWindowIsGap(bufs, c);
    }
  }

  lemma {:induction false} EmptyWindowIsGap(bufs: seq<string>, c: Cursor)
    requires At(bufs, c) && c.idx < |bufs| && c.written < |Flatten(bufs)|
    requires Flatten(Window(bufs, c.idx, c.offset)) == ""
    ensures GapAt(bufs, c.idx)
  {
    EmptyWindow(bufs, c);
    WholeConcat(bufs, c.idx);
    assert bufs[c.idx][c.offset..] == "" by { FlattenEmpty(Window(bufs, c.idx, c.offset)); }
    FlattenEmpty(bufs[c.idx..]);
    var k :| 0 <= k < |bufs[c.idx..]| && bufs[c.idx..][k] != "";
    assert bufs[c.idx + k] != "";
  }

  /** An empty window at a cursor consists of empty buffers. */
  lemma EmptyWindow(bufs: seq<string>, c: Cursor)
    requires At(bufs, c) && c.idx < |bufs| && Flatten(Window(bufs, c.idx, c.offset)) == ""
    ensures forall i | c.idx <= i < Min(|bufs|, c.idx + CHUNK) :: bufs[i] == ""
  {
    var w := Window(bufs, c.idx, c.offset);
    FlattenEmpty(w);
    assert w[0] == "";
    assert forall i | c.idx < i < Min(|bufs|, c.idx + CHUNK) :: bufs[i] == w[i - c.idx];
  }

  /** writev_all. kernel(i) answers the i-th call; last is a call after which the loop is over,
      which is to say that the loop ends at all. */
  method WritevAll(iov: seq<string>, kernel: nat -> Outcome, ghost last: nat)
    returns (ok: bool, emitted: string, calls: nat)
    requires Over(iov, kernel, last)
    ensures calls <= last
    ensures emitted == Out(iov, kernel, calls) && |emitted| <= |Flatten(iov)| && emitted == Flatten(iov)[..|emitted|]
    ensures |emitted| == AfterCalls(iov, kernel, calls).written
    ensures ok <==> emitted == Flatten(iov)
    ensures !ok ==> calls > 0 && kernel(calls - 1) == Failed
    ensures ok ==> forall i | 0 <= i < calls :: kernel(i) != Failed
  {
    var total := |Flatten(iov)|;
    emitted, calls := "", 0;
    var idx, offset := 0, 0;
    while |emitted| < total
      invariant calls <= last
      invariant AfterCalls(iov, kernel, calls) == Cursor(idx, offset, |emitted|)
      invariant |emitted| <= total && emitted == Flatten(iov)[..|emitted|]
      invariant forall i | 0 <= i < calls :: kernel(i) != Failed
      decreases last - calls
    {
      StillRunning(iov, kernel, calls, last);
      var failed;
      failed, emitted, idx, offset := Attempt(iov, kernel, calls, emitted, idx, offset);
      calls := calls + 1;
      if failed {
        PrefixSoFar(iov, kernel, calls);
        return false, emitted, calls;
      }
    }
    PrefixSoFar(iov, kernel, calls);
    ok := true;
  }

  lemma {:induction false} StillRunning(iov: seq<string>, kernel: nat -> Outcome, k: nat, last: nat)
    requires Over(iov, kernel, last) && k <= last && AfterCalls(iov, kernel, k).written < |Flatten(iov)|
    requires forall i | 0 <= i < k :: kernel(i) != Failed
    ensures k < last
  {
  }

  /** One call of writev and what the loop does with its answer. */
  method Attempt(iov: seq<string>, kernel: nat -> Outcome, k: nat, before: string, i: nat, o: nat)
    returns (failed: bool, emitted: string, idx: nat, offset: nat)
    requires AfterCalls(iov, kernel, k) == Cursor(i, o, |before|)
    requires |before| < |Flatten(iov)| && before == Flatten(iov)[..|before|]
    ensures AfterCalls(iov, kernel, k + 1) == Cursor(idx, offset, |emitted|)
    ensures |emitted| <= |Flatten(iov)| && emitted == Flatten(iov)[..|emitted|]
    ensures failed <==> kernel(k) == Failed
  {
    ghost var c := Cursor(i, o, |before|);
    OneCall(iov, kernel, k, c);
    emitted, idx, offset := before, i, o;
    var tmp := BuildWindow(iov, i, o);
    var answer := kernel(k);
    failed := answer == Failed;
    if answer.Wrote? {
      var text;
      text, idx, offset := TakeWritten(iov, tmp, i, o, answer.n, c);
      emitted := emitted + text;
    }
  }

  lemma {:induction false} PrefixSoFar(iov: seq<string>, kernel: nat -> Outcome, k: nat)
    ensures var text := Out(iov, kernel, k);
      && |text| == AfterCalls(iov, kernel, k).written <= |Flatten(iov)|
      && text == Flatten(iov)[..|text|] && (|text| == |Flatten(iov)| <==> text == Flatten(iov))
  {
    EmittedIsPrefix(iov, kernel, k);
  }

  lemma {:induction false} OneCall(iov: seq<string>, kernel: nat -> Outcome, k: nat, c: Cursor)
    requires c == AfterCalls(iov, kernel, k) && c.written < |Flatten(iov)|
    ensures At(iov, c) && c.idx < |iov| && AfterCalls(iov, kernel, k + 1) == AfterCall(iov, c, kernel(k))
    ensures var r := AfterCall(iov, c, kernel(k));
      r.written <= |Flatten(iov)| && Flatten(iov)[..c.written] + Emitted(iov, c, kernel(k)) == Flatten(iov)[..r.written]
  {
    CursorIsValid(iov, kernel, k);
    if kernel(k).Wrote? {
      EmitNext(iov, c, Min(kernel(k).n, |Flatten(Window(iov, c.idx, c.offset))|));
    }
  }

  /** What a call that wrote n bytes does to the loop's variables. */
  method TakeWritten(iov: seq<string>, tmp: seq<string>, i: nat, o: nat, n: nat, ghost c: Cursor)
    returns (text: string, idx: nat, offset: nat)
    requires At(iov, c) && c.idx == i < |iov| && c.offset == o && tmp == Window(iov, i, o)
    ensures text == Emitted(iov, c, Wrote(n))
    ensures AfterCall(iov, c, Wrote(n)) == Cursor(idx, offset, c.written + |text|)
  {
    var w := Min(n, |Flatten(tmp)|);
    EmitNext(iov, c, w);
    text := Flatten(tmp)[..w];
    idx, offset := MoveCursor(iov, i, o, w, c);
  }

  /** The cursor of an unfinished loop. */
  lemma {:induction false} CursorIsValid(iov: seq<string>, kernel: nat -> Outcome, k: nat)
    ensures var c := AfterCalls(iov, kernel, k);
      && At(iov, c) && c.written <= |Flatten(iov)| && Out(iov, kernel, k) <= Flatten(iov)
      && (c.written < |Flatten(iov)| ==> c.idx < |iov| && c.offset <= |iov[c.idx]|)
  {
    EmittedIsPrefix(iov, kernel, k);
    if AfterCalls(iov, kernel, k).written < |Flatten(iov)| { NotPastTheEnd(iov, AfterCalls(iov, kernel, k)); }
  }

  lemma {:induction false} NotPastTheEnd(bufs: seq<string>, c: Cursor)
    requires At(bufs, c) && c.written < |Flatten(bufs)|
    ensures c.idx < |bufs|
  {
    AtBound(bufs, c);
    WholeConcat(bufs, c.idx);
  }

  lemma {:induction false} ProgressIsMade(bufs: seq<string>, c: Cursor, n: nat)
    requires At(bufs, c) && c.idx < |bufs| && n > 0 && Flatten(Window(bufs, c.idx, c.offset)) != ""
    ensures c.written < AfterCall(bufs, c, Wrote(n)).written <= |Flatten(bufs)|
  {
    EmitNext(bufs, c, Min(n, |Flatten(Window(bufs, c.idx, c.offset))|));
  }

  /** When only finitely many calls are interrupted or write nothing, and no gap of empty buffers
      lies in the way, the loop ends. */
  lemma {:induction false} QuietKernelEnds(bufs: seq<string>, kernel: nat -> Outcome, quiet: nat) returns (last: nat)
    requires QuietFrom(kernel, quiet)
    requires forall g: nat :: !GapAt(bufs, g)
    ensures Over(bufs, kernel, last)
    decreases |Flatten(bufs)| - AfterCalls(bufs, kernel, quiet).written
  {
    EmittedIsPrefix(bufs, kernel, quiet);
    var c := AfterCalls(bufs, kernel, quiet);
    if c.written == |Flatten(bufs)| {
      last := quiet;
    } else if kernel(quiet) == Failed {
      last := quiet + 1;
    } else {
      OffersSomething(bufs, c);
      ProgressIsMade(bufs, c, kernel(quiet).n);
      assert AfterCalls(bufs, kernel, quiet + 1) == AfterCall(bufs, c, kernel(quiet));
      last := QuietKernelEnds(bufs, kernel, quiet + 1);
    }
  }

  /** The first w offered bytes continue what was emitted, and the cursor moves over them. */
  lemma {:induction false} EmitNext(bufs: seq<string>, c: Cursor, w: nat)
    requires At(bufs, c) && c.idx < |bufs| && w <= |Flatten(Window(bufs, c.idx, c.offset))|
    ensures c.written + w <= |Flatten(bufs)|
    ensures Flatten(bufs)[..c.written] + Flatten(Window(bufs, c.idx, c.offset))[..w] == Flatten(bufs)[..c.written + w]
    ensures At(bufs, Advance(bufs, c, w)) && Advance(bufs, c, w).written == c.written + w
  {
    WindowIsNext(bufs, c);
    TakeNext(Flatten(bufs), c.written, Flatten(Window(bufs, c.idx, c.offset)), w);
    AdvanceLands(bufs, c, w);
  }

  lemma TakeNext(whole: string, n: nat, next: string, w: nat)
    requires n <= |whole| && next <= whole[n..] && w <= |next|
    ensures n + w <= |whole| && whole[..n] + next[..w] == whole[..n + w]
  {
  }

  /** The slice loop: the partially written buffer first, then whole ones. */
  method BuildWindow(iov: seq<string>, idx: nat, offset: nat) returns (tmp: seq<string>)
    requires idx < |iov| && offset <= |iov[idx]|
    ensures tmp == Window(iov, idx, offset) && |tmp| == Min(|iov| - idx, 64)
  {
    tmp := [];
    var i := idx;
    while i < |iov| && |tmp| < CHUNK
      invariant idx <= i <= Min(|iov|, idx + CHUNK) && |tmp| == i - idx
      invariant tmp == if i == idx then [] else [iov[idx][offset..]] + iov[idx + 1..i]
    {
      var base := if i == idx && offset > 0 then iov[i][offset..] else iov[i];
      tmp := tmp + [base];
      i := i + 1;
    }
  }

  /** The advance loop over the buffers covered by a write of w bytes. */
  method MoveCursor(iov: seq<string>, i: nat, o: nat, w: nat, ghost c: Cursor) returns (idx: nat, offset: nat)
    requires At(iov, c) && c.idx == i && c.offset == o && c.written + w <= |Flatten(iov)|
    ensures var a := Advance(iov, c, w); idx == a.idx && offset == a.offset
  {
    idx, offset := i, o;
    var remaining: nat := w;
    ghost var d := c;
    while remaining > 0 && idx < |iov|
      invariant d.idx == idx && d.offset == offset && idx <= |iov|
      invariant idx < |iov| ==> offset <= |iov[idx]|
      invariant Advance(iov, d, remaining) == Advance(iov, c, w)
      decreases |iov| - idx, remaining
    {
      var avail := |iov[idx]| - offset;
      if remaining < avail {
        offset := offset + remaining;
        d := Cursor(idx, offset, d.written + remaining);
        remaining := 0;
      } else {
        remaining := remaining - avail;
        idx := idx + 1;
        offset := 0;
        d := Cursor(idx, 0, d.written + avail);
      }
    }
  }

  // ---- the gap is fatal ----------------------------------------------------------

  lemma {:induction false} AdvanceStopsAt(bufs: seq<string>, c: Cursor, n: nat, g: nat)
    requires At(bufs, c) && c.idx <= g <= |bufs| && c.written + n <= |Flatten(bufs[..g])|
    ensures var a := Advance(bufs, c, n); a.idx <= g && (a.idx == g ==> a.offset == 0)
    decreases g - c.idx, n
  {
    if n > 0 {
      PrefixConcat(bufs, c.idx, g);
      if c.idx < g {
        PrefixStep(bufs, c.idx);
        var avail := |bufs[c.idx]| - c.offset;
        if n >= avail {
          AdvanceStopsAt(bufs, Cursor(c.idx + 1, 0, c.written + avail), n - avail, g);
        }
      }
    }
  }

  /** In front of a gap the cursor never gets past it. */
  lemma StuckCall(bufs: seq<string>, c: Cursor, o: Outcome, g: nat)
    requires GapAt(bufs, g) && At(bufs, c) && c.idx <= g && (c.idx == g ==> c.offset == 0)
    ensures var a := AfterCall(bufs, c, o); At(bufs, a) && a.idx <= g && (a.idx == g ==> a.offset == 0)
  {
    if o.Wrote? {
      var w := Flatten(Window(bufs, c.idx, c.offset));
      WindowIsNext(bufs, c);
      AdvanceLands(bufs, c, Min(o.n, |w|));
      WindowBeforeGap(bufs, c, g);
      AdvanceStopsAt(bufs, c, Min(o.n, |w|), g);
    }
  }

  lemma WindowBeforeGap(bufs: seq<string>, c: Cursor, g: nat)
    requires GapAt(bufs, g) && At(bufs, c) && c.idx <= g && (c.idx == g ==> c.offset == 0)
    ensures c.written + |Flatten(Window(bufs, c.idx, c.offset))| <= |Flatten(bufs[..g])|
  {
    var end := c.idx + CHUNK;
    PrefixConcat(bufs, c.idx, g);
    PrefixConcat(bufs, c.idx, end);
    if g < end {
      PrefixConcat(bufs, g, end);
      FlattenEmpty(bufs[g..end]);
    } else {
      PrefixConcat(bufs, end, g);
    }
    var rest := bufs[c.idx + 1..end];
    assert bufs[c.idx..end] == [bufs[c.idx]] + rest;
    assert Window(bufs, c.idx, c.offset) == [bufs[c.idx][c.offset..]] + rest;
    HeadLength(bufs[c.idx], rest);
    HeadLength(bufs[c.idx][c.offset..], rest);
  }

  lemma {:induction false} HeadLength(head: string, rest: seq<string>)
    ensures |Flatten([head] + rest)| == |head| + |Flatten(rest)|
  {
    assert ([head] + rest)[1..] == rest;
  }

  /** The loop can finish if and only if there is no gap: with one, no sequence of kernel
      answers ever completes the write; without one, single-byte writes do. */
  lemma {:induction false} FinishesExactlyWithoutGap(bufs: seq<string>)
    ensures (exists kernel: nat -> Outcome, k: nat :: AfterCalls(bufs, kernel, k).written == |Flatten(bufs)|)
            <==> (forall g: nat :: !GapAt(bufs, g))
  {
    if g: nat :| GapAt(bufs, g) {
      forall kernel: nat -> Outcome, k: nat
        ensures AfterCalls(bufs, kernel, k).written < |Flatten(bufs)|
      {
        NeverFinishes(bufs, kernel, k, g);
      }
    } else {
      OneByteAtATime(bufs, |Flatten(bufs)|);
    }
  }

  lemma {:induction false} NeverFinishes(bufs: seq<string>, kernel: nat -> Outcome, k: nat, g: nat)
    requires GapAt(bufs, g)
    ensures var c := AfterCalls(bufs, kernel, k);
      && At(bufs, c) && c.idx <= g && (c.idx == g ==> c.offset == 0)
      && c.written < |Flatten(bufs)|
  {
    if k > 0 {
      NeverFinishes(bufs, kernel, k - 1, g);
      StuckCall(bufs, AfterCalls(bufs, kernel, k - 1), kernel(k - 1), g);
    }
    var c := AfterCalls(bufs, kernel, k);
    PrefixConcat(bufs, g, |bufs|);
    assert bufs[..|bufs|] == bufs;
    var far :| g + CHUNK <= far < |bufs| && bufs[far] != "";
    FlattenEmpty(bufs[g..]);
    assert bufs[g..][far - g] != "";
    PrefixConcat(bufs, c.idx, g);
    if c.idx < g { PrefixStep(bufs, c.idx); PrefixConcat(bufs, c.idx + 1, g); }
  }

  lemma {:induction false} OneByteAtATime(bufs: seq<string>, k: nat)
    requires forall g: nat :: !GapAt(bufs, g)
    requires k <= |Flatten(bufs)|
    ensures var c := AfterCalls(bufs, (i: nat) => Wrote(1), k); At(bufs, c) && c.written == k
  {
    if k > 0 {
      OneByteAtATime(bufs, k - 1);
      var c := AfterCalls(bufs, (i: nat) => Wrote(1), k - 1);
      OffersSomething(bufs, c);
      AdvanceLands(bufs, c, 1);
    }
  }
}
