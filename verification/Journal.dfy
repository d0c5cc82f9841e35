/** The event journal and its replay: the receiver prints one JSON line per event
    (cpp/src/udp_receiver.cpp), replay_sender extracts five fields from each line and formats
    the feed message again (cpp/src/replay_sender.cpp), and the receiver parses that message.

    The proofs view a line through its double quotes: cut there, a line is a list of segments,
    and searching for a quoted key is searching that list. */
module Journal {
  import opened Prelude
  import opened Delimited
  import opened Numerals
  import opened Events

  const LINE_BUFFER: nat := 512
  const MESSAGE_BUFFER: nat := 256

  // ---- the printer --------------------------------------------------------------

  /** The pieces of the printed line between double quotes, around the symbol. */
  function Prefix(ev: Event): seq<string> {
    ["{",
     "seq", ":" + Ll(ev.seqNo) + ",",
     "msg_ts_ms", ":" + Ll(ev.msgTs) + ",",
     "recv_ts_ms", ":" + Ll(ev.recvTs) + ",",
     "latency_ms", ":" + Ll(ev.latency) + ",",
     "symbol", ":"]
  }

  function Suffix(ev: Event): seq<string> {
    [",",
     "price", ":" + Price(ev.price) + ",",
     "size", ":" + Ll(ev.size) + ",",
     "src", ":", ev.src, "}"]
  }

  /** The journal line of an event, without its final newline. */
  function JsonLine(ev: Event): string {
    Join(Prefix(ev) + [ev.symbol] + Suffix(ev), '"')
  }

  function JournalText(evs: seq<Event>): string {
    if evs == [] then "" else JsonLine(evs[0]) + ("\n" + JournalText(evs[1..]))
  }

  // ---- searching ----------------------------------------------------------------

  ghost predicate Occurs(s: string, key: string, j: nat) {
    j + |key| <= |s| && s[j..j + |key|] == key
  }

  /** std::string::find: the first occurrence of key. */
  function Find(s: string, key: string): (r: Option<nat>)
    ensures r.Some? ==> Occurs(s, key, r.value) && forall j: nat | j < r.value :: !Occurs(s, key, j)
    ensures r.None? ==> forall j: nat :: !Occurs(s, key, j)
  {
    if |s| < |key| then None
    else if s[..|key|] == key then Some(0)
    else
      var r := Find(s[1..], key);
      OccursInTail(s, key);
      if r.Some? then Some(r.value + 1) else None
  }

  lemma OccursInTail(s: string, key: string)
    requires |s| > 0
    ensures forall j: nat | j > 0 :: Occurs(s, key, j) <==> Occurs(s[1..], key, j - 1)
  {
    forall j: nat | j > 0 ensures Occurs(s, key, j) <==> Occurs(s[1..], key, j - 1) {
      SliceOfTail(s, j - 1, |key|);
    }
  }

  lemma SliceOfTail(s: string, i: nat, n: nat)
    requires |s| > 0
    ensures i + n < |s| ==> s[1..][i..i + n] == s[i + 1..i + 1 + n]
  {
  }

  /** What follows the first occurrence of key. */
  function AfterFirst(s: string, key: string): Option<string> {
    if |s| < |key| then None
    else if s[..|key|] == key then Some(s[|key|..])
    else AfterFirst(s[1..], key)
  }

  lemma {:induction false} FindIsAfterFirst(s: string, key: string)
    ensures AfterFirst(s, key) ==
      match Find(s, key) { case None => None case Some(i) => Some(s[i + |key|..]) }
  {
    if |key| <= |s| && s[..|key|] != key {
      FindIsAfterFirst(s[1..], key);
      if Find(s[1..], key).Some? {
        var i := Find(s[1..], key).value;
        assert s[i + 1 + |key|..] == s[1..][i + |key|..];
      }
    }
  }

  method SkipPast(s: string, key: string) returns (r: Option<string>)
    ensures r == AfterFirst(s, key)
  {
    FindIsAfterFirst(s, key);
    var found := Find(s, key);
    r := if found.None? then None else Some(s[found.value + |key|..]);
  }

  // ---- the field extractors -----------------------------------------------------

  function SignEnd(s: string, p: nat): nat {
    if p < |s| && s[p] == '-' then p + 1 else p
  }

  /** The digits after blanks and an optional sign, and the number they denote. */
  ghost function LeadingLlSpec(s: string): Parsed {
    var sign := RunEnd(s, 0, Blanks);
    var start := SignEnd(s, sign);
    var digits := s[start..RunEnd(s, start, Digits)];
    if DigitsValue(digits) > MAX_LL then Overflows
    else if digits == "" then Malformed
    else
      var n: int := DigitsValue(digits);
      Value(if start > sign then -n else n)
  }

  method SkipBlanks(s: string) returns (p: nat)
    ensures p == RunEnd(s, 0, Blanks)
  {
    p := 0;
    while p < |s| && Blanks.Has(s[p])
      invariant p <= RunEnd(s, 0, Blanks)
    {
      p := p + 1;
    }
  }

  /** The accumulation loop: None when the accumulator leaves the 64-bit range. */
  method ReadDigits(s: string, start: nat) returns (got: bool, r: Option<nat>)
    requires start <= |s|
    ensures var digits := s[start..RunEnd(s, start, Digits)];
      && (got <==> digits != "")
      && r == if DigitsValue(digits) > MAX_LL then None else Some(DigitsValue(digits))
  {
    ghost var digits := s[start..RunEnd(s, start, Digits)];
    var p := start;
    var v := 0;
    got := false;
    while p < |s|
      invariant start <= p <= start + |digits|
      invariant AllDigits(digits[..p - start]) && v == DigitsValue(digits[..p - start]) <= MAX_LL
      invariant got <==> p > start
    {
      var c := s[p];
      if !IsDigit(c) { break; }
      Append(digits, p - start);
      v := v * 10 + DigitValue(c);
      got := true;
      p := p + 1;
      if v > MAX_LL {
        PrefixBounded(digits, p - start);
        return got, None;
      }
    }
    assert digits[..p - start] == digits;
    r := Some(v);
  }

  method LeadingLl(s: string) returns (r: Parsed)
    ensures r == LeadingLlSpec(s)
  {
    var p := SkipBlanks(s);
    var neg := p < |s| && s[p] == '-';
    if neg { p := p + 1; }
    var got, v := ReadDigits(s, p);
    if v.None? { return Overflows; }
    if !got { return Malformed; }
    var n: int := v.value;
    r := Value(if neg then -n else n);
  }

  ghost function ExtractLlSpec(s: string, key: string): Parsed {
    match AfterFirst(s, key)
    case None => Malformed
    case Some(rest) => LeadingLlSpec(rest)
  }

  /** extract_lonlong_field. Text after the digits is ignored. */
  method ExtractLl(s: string, key: string) returns (r: Parsed)
    ensures r == ExtractLlSpec(s, key)
  {
    var rest := SkipPast(s, key);
    if rest.None? { return Malformed; }
    r := LeadingLl(rest.value);
  }

  /** The run of number characters after the blanks. */
  ghost function NumberText(s: string): string {
    var start := RunEnd(s, 0, Blanks);
    s[start..RunEnd(s, start, NumberChars)]
  }

  ghost function ExtractPriceSpec(s: string, key: string): Option<int> {
    match AfterFirst(s, key)
    case None => None
    case Some(rest) => LeadingPriceSpec(rest)
  }

  ghost function LeadingPriceSpec(s: string): Option<int> {
    var tmp := NumberText(s);
    if tmp == "" then None else ParsePrice(tmp)
  }

  method ReadNumber(s: string) returns (tmp: string)
    ensures tmp == NumberText(s)
  {
    tmp := "";
    var p := SkipBlanks(s);
    ghost var start := p;
    while p < |s|
      invariant start <= p <= RunEnd(s, start, NumberChars)
      invariant tmp == s[start..p]
    {
      var c := s[p];
      if !NumberChars.Has(c) { break; }
      tmp := tmp + [c];
      p := p + 1;
    }
  }

  method LeadingPrice(s: string) returns (r: Option<int>)
    ensures r == LeadingPriceSpec(s)
  {
    var tmp := ReadNumber(s);
    if tmp == "" { return None; }
    r := ParsePrice(tmp);
  }

  /** extract_double_field. */
  method ExtractPrice(s: string, key: string) returns (r: Option<int>)
    ensures r == ExtractPriceSpec(s, key)
  {
    var rest := SkipPast(s, key);
    if rest.None? { return None; }
    r := LeadingPrice(rest.value);
  }

  /** The text between the first two double quotes. */
  ghost function QuotedText(s: string): Option<string> {
    var t := Split(s, '"');
    if |t| < 3 then None else Some(t[1])
  }

  ghost function ExtractStringSpec(s: string, key: string): Option<string> {
    match AfterFirst(s, key)
    case None => None
    case Some(rest) => QuotedText(rest)
  }

  /** extract_string_field. */
  method ExtractString(s: string, key: string) returns (r: Option<string>)
    ensures r == ExtractStringSpec(s, key)
  {
    var past := SkipPast(s, key);
    if past.None? { return None; }
    var rest := past.value;
    var q := IndexOf(rest, '"', 0);
    if q.None? {
      SplitWithout(rest, '"');
      return None;
    }
    CutAt(rest, '"', 0, q.value);
    var first := q.value + 1;
    var last := IndexOf(rest, '"', first);
    if last.None? {
      SplitWithout(rest[first..], '"');
      return None;
    }
    CutAt(rest, '"', first, last.value);
    r := Some(rest[first..last.value]);
  }

  // ---- replay -------------------------------------------------------------------

  ghost function Extracted(line: string): Option<Payload> {
    match (ExtractLlSpec(line, "\"seq\""), ExtractLlSpec(line, "\"msg_ts_ms\""),
           ExtractPriceSpec(line, "\"price\""), ExtractLlSpec(line, "\"size\""),
           ExtractStringSpec(line, "\"symbol\""))
    case (Value(n), Value(ts), Some(price), Value(size), Some(sym)) => Some(Payload(n, ts, sym, price, size))
    case _ => None
  }

  /** All five extractions run before the line is judged. */
  method Extract(line: string) returns (r: Option<Payload>)
    ensures r == Extracted(line)
  {
    var n := ExtractLl(line, "\"seq\"");
    var ts := ExtractLl(line, "\"msg_ts_ms\"");
    var price := ExtractPrice(line, "\"price\"");
    var size := ExtractLl(line, "\"size\"");
    var sym := ExtractString(line, "\"symbol\"");
    if n.Value? && ts.Value? && price.Some? && size.Value? && sym.Some? {
      r := Some(Payload(n.v, ts.v, sym.value, price.value, size.v));
    } else {
      r := None;
    }
  }

  /** The message sent for one line; empty and unparsable lines are skipped. */
  ghost function MessageFor(line: string): Option<string> {
    if line == "" then None
    else match Extracted(line)
      case Some(p) => Some(Message(p))
      case None => None
  }

  /** A line is replayed exactly when all five fields can be extracted, and then as those fields. */
  lemma {:induction false} ReplayedExactlyWhen(line: string)
    ensures var n, ts, size := ExtractLlSpec(line, "\"seq\""), ExtractLlSpec(line, "\"msg_ts_ms\""), ExtractLlSpec(line, "\"size\"");
      var price, sym := ExtractPriceSpec(line, "\"price\""), ExtractStringSpec(line, "\"symbol\"");
      MessageFor(line) ==
        if n.Value? && ts.Value? && price.Some? && size.Value? && sym.Some? then
          Some(Message(Payload(n.v, ts.v, sym.value, price.value, size.v)))
        else None
  {
    if line == "" { assert AfterFirst(line, "\"seq\"").None?; }
  }

  ghost function MessagesFor(lines: seq<string>): seq<Option<string>> {
    seq(|lines|, i requires 0 <= i < |lines| => MessageFor(lines[i]))
  }

  /** The messages sent for the lines of a journal, in order. */
  ghost function Replayed(lines: seq<string>): seq<string> { Somes(MessagesFor(lines)) }

  /** Which of the first n attempts sendto took. */
  ghost function TakenOf(taken: nat -> bool, n: nat): set<nat> { set i | 0 <= i < n && taken(i) }

  /** The read loop of replay_sender: every message is offered once, in order, and sent counts those
      that sendto took; taken(i) is its answer to the i-th. */
  method Replay(lines: seq<string>, taken: nat -> bool) returns (messages: seq<string>, sent: nat)
    ensures messages == Replayed(lines) && sent == |TakenOf(taken, |messages|)|
  {
    ghost var all := MessagesFor(lines);
    messages, sent := [], 0;
    assert TakenOf(taken, 0) == {};
    for i := 0 to |lines|
      invariant messages == Somes(all[..i]) && sent == |TakenOf(taken, |messages|)|
    {
      var m := ReplayLine(lines[i]);
      SomesSnoc(all, i);
      if m.Some? {
        sent := Offer(|messages|, taken, sent);
        messages := messages + [m.value];
      }
    }
    assert all[..|lines|] == all;
  }

  /** The n-th sendto, counted if it succeeds. */
  method Offer(n: nat, taken: nat -> bool, before: nat) returns (sent: nat)
    requires before == |TakenOf(taken, n)|
    ensures sent == |TakenOf(taken, n + 1)|
  {
    TakenNext(taken, n);
    sent := if taken(n) then before + 1 else before;
  }

  lemma TakenNext(taken: nat -> bool, n: nat)
    ensures |TakenOf(taken, n + 1)| == |TakenOf(taken, n)| + (if taken(n) then 1 else 0)
  {
    assert TakenOf(taken, n + 1) == TakenOf(taken, n) + (if taken(n) then {n} else {});
  }

  /** The loop body: the message to send, if any. */
  method ReplayLine(line: string) returns (m: Option<string>)
    ensures m == MessageFor(line)
  {
    if line == "" { return None; }
    var p := Extract(line);
    m := if p.Some? then Some(Message(p.value)) else None;
  }
}
