/** The backward chunked read of the events API (python/app/main.py, read_last_lines). */
module FileTail {
  import opened Prelude
  import opened Delimited

  /** The lines kept by the comprehension: empty pieces are dropped. */
  function NonEmpty(lines: seq<string>): (r: seq<string>)
    ensures |r| <= |lines| && "" !in r
    ensures |lines| == 1 ==> r == if lines[0] == "" then [] else lines
  {
    if lines == [] then []
    else if lines[0] == "" then NonEmpty(lines[1..])
    else [lines[0]] + NonEmpty(lines[1..])
  }

  /** The lines of the whole file, read in one piece. */
  function LinesOf(file: string): seq<string> { NonEmpty(Split(file, '\n')) }

  /** Python's lines[-n:]; for n == 0 that slice is the whole list. */
  function LastN<T>(lines: seq<T>, n: int): (r: seq<T>)
    requires n >= 0
    ensures n > 0 ==> |r| == Min(|lines|, n)
    ensures |r| <= |lines| && r == lines[|lines| - |r|..]
  {
    if n == 0 || |lines| <= n then lines else lines[|lines| - n..]
  }

  /** read_last_lines with the file's bytes in place of the path; None is a missing file. */
  method ReadLastLines(file: Option<string>, numLines: int, bufsize: int) returns (r: seq<string>)
    requires numLines >= 1 && bufsize > 0
    ensures r == match file {
                   case None => []
                   case Some(bytes) => if '\n' in bytes then LastN(LinesOf(bytes), numLines) else []
                 }
  {
    if file.None? { return []; }
    var bytes := file.value;
    if |bytes| == 0 { return []; }
    var lines: seq<string> := [];
    var blockEnd := |bytes|;
    var data := "";
    while blockEnd > 0 && |lines| <= numLines
      invariant 0 <= blockEnd <= |bytes|
      invariant data == bytes[blockEnd..]
      invariant lines == if '\n' in data then LinesOf(data) else []
      decreases blockEnd
    {
      var blockStart := if blockEnd - bufsize > 0 then blockEnd - bufsize else 0;
      var block := bytes[blockStart..blockEnd];
      assert block + data == bytes[blockStart..];
      data := block + data;
      var allLines := SplitSv(data, '\n');
      SplitShape(data, '\n');
      if |allLines| > 1 {
        lines := NonEmpty(allLines);
      }
      ShorterHasNone(bytes, blockStart, blockEnd);
      blockEnd := blockStart;
      if blockStart == 0 { break; }
    }
    if blockEnd == 0 {
      assert bytes[0..] == bytes;
    } else {
      ChunkTail(bytes[..blockEnd], data, numLines);
      assert bytes == bytes[..blockEnd] + data;
    }
    r := LastN(lines, numLines);
  }

  lemma ShorterHasNone(bytes: string, start: nat, end: nat)
    requires start <= end <= |bytes|
    ensures '\n' in bytes[end..] ==> '\n' in bytes[start..]
  {
    assert bytes[start..] == bytes[start..end] + bytes[end..];
  }

  lemma NoNewlineOneLine(bytes: string)
    requires '\n' !in bytes
    ensures LinesOf(bytes) == if bytes == "" then [] else [bytes]
  {
    SplitWithout(bytes, '\n');
  }

  lemma {:induction false} NonEmptyConcat(a: seq<string>, b: seq<string>)
    ensures NonEmpty(a + b) == NonEmpty(a) + NonEmpty(b)
  {
    if a == [] {
      assert a + b == b;
    } else {
      assert (a + b)[1..] == a[1..] + b;
      NonEmptyConcat(a[1..], b);
    }
  }

  /** Whatever precedes a chunk, only the chunk's first line can be cut by it: the lines after
      that one are lines of the whole file, and they are its last ones. */
  lemma {:induction false} LinesAfterTheCut(before: string, data: string)
    ensures exists front: seq<string> ::
      LinesOf(before + data) == front + NonEmpty(Split(data, '\n')[1..])
  {
    var x, y := Split(before, '\n'), Split(data, '\n');
    SplitConcat(before, data, '\n');
    var seam := x[..|x| - 1] + [x[|x| - 1] + y[0]];
    NonEmptyConcat(seam, y[1..]);
    assert LinesOf(before + data) == NonEmpty(seam) + NonEmpty(y[1..]);
  }

  /** Once a chunk holds more than n lines, its last n lines are the file's last n lines. */
  lemma ChunkTail(before: string, data: string, n: int)
    requires n >= 1 && |LinesOf(data)| > n
    ensures LastN(LinesOf(data), n) == LastN(LinesOf(before + data), n)
    ensures '\n' in data
  {
    var y := Split(data, '\n');
    LinesAfterTheCut(before, data);
    var front: seq<string> :| LinesOf(before + data) == front + NonEmpty(y[1..]);
    assert y == [y[0]] + y[1..];
    NonEmptyConcat([y[0]], y[1..]);
    SplitShape(data, '\n');
  }

  /** The read agrees with taking the last lines of the whole file exactly when the file is empty
      or has a newline: a lone unterminated line is never returned. */
  lemma AgreesExactlyWhen(bytes: string, numLines: int)
    requires numLines >= 1
    ensures (if '\n' in bytes then LastN(LinesOf(bytes), numLines) else []) == LastN(LinesOf(bytes), numLines)
            <==> (bytes == "" || '\n' in bytes)
  {
    if '\n' !in bytes { NoNewlineOneLine(bytes); }
  }
}
