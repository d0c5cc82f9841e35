/** The parsed feed message (cpp/include/event.h) and the receiver's datagram parser
    (cpp/src/udp_receiver.cpp, the batched path of run_udp_receiver). */
module Events {
  import opened Prelude
  import opened Delimited
  import opened Numerals

  const SYMBOL_LEN: nat := 32

  /** symbol and src are the C strings held in the event's fixed buffers; price is in cents. */
  datatype Event = Event(seqNo: int, msgTs: int, recvTs: int, latency: int,
                         symbol: string, price: int, size: int, src: string)

  /** A NUL-terminated buffer read back as a string. */
  function CString(s: string): (r: string)
    ensures r <= s && '\0' !in r
    ensures |r| < |s| ==> s[|r|] == '\0'
    ensures '\0' !in s ==> r == s
  {
    if s == "" || s[0] == '\0' then ""
    else
      var r := CString(s[1..]);
      assert s == [s[0]] + s[1..];
      [s[0]] + r
  }

  /** Event::set_symbol: the first 31 bytes are kept, up to a NUL among them. */
  function SetSymbol(s: string): (r: string)
    ensures |r| <= 31 && '\0' !in r && r <= s
    ensures |r| < |s| && |r| < 31 ==> s[|r|] == '\0'
    ensures |s| < SYMBOL_LEN && '\0' !in s ==> r == s
  {
    CString(if |s| < SYMBOL_LEN - 1 then s else s[..SYMBOL_LEN - 1])
  }

  /** The event a datagram denotes; None where the receiver logs a parse error. */
  ghost function Receive(datagram: string, recvTs: int, src: string): Option<Event> {
    var t := Split(datagram, '|');
    if |t| != 5 then None
    else Assemble(ToLlSpec(t[0]), ToLlSpec(t[1]), t[2], ParsePrice(t[3]), ToLlSpec(t[4]), recvTs, src)
  }

  /** The event of the five parsed tokens, if all of them parsed. */
  ghost function Assemble(n: Parsed, ts: Parsed, symbol: string, price: Option<int>, size: Parsed,
                          recvTs: int, src: string): Option<Event>
  {
    match (n, ts, price, size)
    case (Value(n), Value(ts), Some(price), Value(size)) =>
      Some(Event(n, ts, recvTs, recvTs - ts, SetSymbol(symbol), price, size, src))
    case _ => None
  }

  /** What to_ll accepts. */
  ghost predicate IsLl(token: string) {
    IsNumeral(token) && -MAX_LL <= NumeralValue(token) <= MAX_LL
  }

  /** Which datagrams are well-formed, and which event each denotes: seq|msg_ts|symbol|price|size. */
  lemma {:induction false} ReceiveExactlyWhen(datagram: string, recvTs: int, src: string)
    ensures var t, r := Split(datagram, '|'), Receive(datagram, recvTs, src);
      && (r.Some? <==> |t| == 5 && IsLl(t[0]) && IsLl(t[1]) && ParsePrice(t[3]).Some? && IsLl(t[4]))
      && (r.Some? ==> r.value == Event(NumeralValue(t[0]), NumeralValue(t[1]), recvTs, recvTs - NumeralValue(t[1]),
                                       SetSymbol(t[2]), ParsePrice(t[3]).value, NumeralValue(t[4]), src))
  {
    var t := Split(datagram, '|');
    if |t| == 5 {
      TokenIs(t[0]);
      TokenIs(t[1]);
      TokenIs(t[4]);
    }
  }

  lemma TokenIs(token: string)
    ensures ToLlSpec(token).Value? <==> IsLl(token)
    ensures IsLl(token) ==> ToLlSpec(token) == Value(NumeralValue(token))
  {
    if IsLl(token) { ToLlAccepts(token, NumeralValue(token)); }
    if ToLlSpec(token).Value? { ToLlAccepts(token, ToLlSpec(token).v); }
  }

  method ParseDatagram(datagram: string, recvTs: int, src: string) returns (r: Option<Event>)
    ensures r == Receive(datagram, recvTs, src)
  {
    var tokens := SplitSv(datagram, '|');
    if |tokens| != 5 { return None; }
    r := ParseTokens(tokens, recvTs, src);
  }

  method ParseTokens(tokens: seq<string>, recvTs: int, src: string) returns (r: Option<Event>)
    requires |tokens| == 5
    ensures r == Assemble(ToLlSpec(tokens[0]), ToLlSpec(tokens[1]), tokens[2], ParsePrice(tokens[3]),
                          ToLlSpec(tokens[4]), recvTs, src)
  {
    var n := ToLl(tokens[0]);
    if !n.Value? { return None; }
    var ts := ToLl(tokens[1]);
    if !ts.Value? { return None; }
    var price := ParsePrice(tokens[3]);
    if price.None? { return None; }
    var size := ToLl(tokens[4]);
    if !size.Value? { return None; }
    r := Some(Event(n.v, ts.v, recvTs, recvTs - ts.v, SetSymbol(tokens[2]), price.value, size.v, src));
  }

  /** A datagram with the receive time and the sender that the kernel reports. */
  datatype Datagram = Datagram(bytes: string, recvTs: int, src: string)

  ghost function Receptions(ds: seq<Datagram>): seq<Option<Event>> {
    seq(|ds|, i requires 0 <= i < |ds| => Receive(ds[i].bytes, ds[i].recvTs, ds[i].src))
  }

  /** The events of the well-formed datagrams, in order. */
  ghost function ParsedEvents(ds: seq<Datagram>): seq<Event> { Somes(Receptions(ds)) }

  /** The part of an event that a feed message carries. */
  datatype Payload = Payload(seqNo: int, msgTs: int, symbol: string, price: int, size: int)

  function PayloadOf(ev: Event): Payload {
    Payload(ev.seqNo, ev.msgTs, ev.symbol, ev.price, ev.size)
  }

  function Payloads(evs: seq<Event>): seq<Payload> {
    seq(|evs|, i requires 0 <= i < |evs| => PayloadOf(evs[i]))
  }

  /** The feed message seq|msg_ts|symbol|price|size. */
  function Message(p: Payload): string {
    Join([Ll(p.seqNo), Ll(p.msgTs), p.symbol, Price(p.price), Ll(p.size)], '|')
  }

  /** The format string "%lld|%lld|%s|%.2f|%lld". */
  lemma {:induction false} MessageIsFormat(p: Payload)
    ensures Message(p) == Ll(p.seqNo) + ("|" + (Ll(p.msgTs) + ("|" + (p.symbol + ("|" + (Price(p.price) + ("|" + Ll(p.size))))))))
  {
    var a, b, c, d, e := Ll(p.seqNo), Ll(p.msgTs), p.symbol, Price(p.price), Ll(p.size);
    JoinCons(a, [b, c, d, e], '|');
    JoinCons(b, [c, d, e], '|');
    JoinCons(c, [d, e], '|');
    JoinCons(d, [e], '|');
  }

  lemma {:induction false} JoinCons(x: string, rest: seq<string>, d: char)
    requires rest != []
    ensures Join([x] + rest, d) == x + ([d] + Join(rest, d))
  {
    assert ([x] + rest)[1..] == rest;
  }

  predicate InRange(p: Payload) {
    && -MAX_LL <= p.seqNo <= MAX_LL
    && -MAX_LL <= p.msgTs <= MAX_LL
    && -MAX_LL <= p.size <= MAX_LL
  }

  /** Printed numbers contain none of the bytes that delimit messages, lines or fields. */
  lemma {:induction false} NumbersAreClean(v: int, c: char)
    requires c == '|' || c == '"' || c == '\n'
    ensures c !in Ll(v) && c !in Price(v)
  {
  }

  /** A symbol with delimiters is cut into tokens; everything else stays in place. */
  lemma MessageTokens(p: Payload)
    ensures Split(Message(p), '|') == [Ll(p.seqNo), Ll(p.msgTs)] + Split(p.symbol, '|') + [Price(p.price), Ll(p.size)]
  {
    NumbersAreClean(p.seqNo, '|');
    NumbersAreClean(p.msgTs, '|');
    NumbersAreClean(p.price, '|');
    NumbersAreClean(p.size, '|');
    var pre, post := [Ll(p.seqNo), Ll(p.msgTs)], [Price(p.price), Ll(p.size)];
    assert pre + [p.symbol] + post == [Ll(p.seqNo), Ll(p.msgTs), p.symbol, Price(p.price), Ll(p.size)];
    SplitAround(pre, p.symbol, post, '|');
  }

  /** Receiving a formatted message gives back its payload, for every payload whose symbol
      fits the event's buffer and has no '|'; a '|' in the symbol makes the datagram malformed. */
  lemma ReceiveMessage(p: Payload, recvTs: int, src: string)
    requires InRange(p)
    ensures Receive(Message(p), recvTs, src) ==
      if '|' in p.symbol then None
      else Some(Event(p.seqNo, p.msgTs, recvTs, recvTs - p.msgTs, SetSymbol(p.symbol), p.price, p.size, src))
  {
    MessageTokens(p);
    SplitShape(p.symbol, '|');
    if '|' in p.symbol {
      assert |Split(p.symbol, '|')| > 1;
    } else {
      SplitWithout(p.symbol, '|');
      assert [Ll(p.seqNo), Ll(p.msgTs)] + [p.symbol] + [Price(p.price), Ll(p.size)]
             == [Ll(p.seqNo), Ll(p.msgTs), p.symbol, Price(p.price), Ll(p.size)];
      LlParses(p.seqNo);
      LlParses(p.msgTs);
      LlParses(p.size);
      PriceParses(p.price);
      ReceiveTokens(p, [Ll(p.seqNo), Ll(p.msgTs), p.symbol, Price(p.price), Ll(p.size)], Message(p), recvTs, src);
    }
  }

  lemma {:induction false} ReceiveTokens(p: Payload, t: seq<string>, datagram: string, recvTs: int, src: string)
    requires |t| == 5 && Split(datagram, '|') == t
    requires IsLl(t[0]) && IsLl(t[1]) && IsLl(t[4]) && ParsePrice(t[3]) == Some(p.price)
    requires NumeralValue(t[0]) == p.seqNo && NumeralValue(t[1]) == p.msgTs && NumeralValue(t[4]) == p.size
    requires t[2] == p.symbol
    ensures Receive(datagram, recvTs, src) ==
      Some(Event(p.seqNo, p.msgTs, recvTs, recvTs - p.msgTs, SetSymbol(p.symbol), p.price, p.size, src))
  {
    ReceiveExactlyWhen(datagram, recvTs, src);
  }
}
