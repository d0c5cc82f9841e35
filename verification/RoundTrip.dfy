/** Journal, replay and receive undo each other, exactly for the symbols that the line format
    can carry (cpp/src/udp_receiver.cpp and cpp/src/replay_sender.cpp). */
module RoundTrip {
  import opened Prelude
  import opened Delimited
  import opened Numerals
  import opened Events
  import opened Journal
  import GatherWrite

  // ---- searching through the quotes ---------------------------------------------

  function Quoted(name: string): string { ['"'] + (name + ['"']) }

  /** The segments after the first inner segment equal to name. */
  function AfterKey(segs: seq<string>, name: string): Option<seq<string>> {
    if |segs| < 3 then None
    else if segs[1] == name then Some(segs[2..])
    else AfterKey(segs[1..], name)
  }

  lemma {:induction false} AfterFirstSkips(a: string, t: string, key: string)
    requires key != "" && key[0] !in a
    ensures AfterFirst(a + t, key) == AfterFirst(t, key)
  {
    if a == "" {
      assert a + t == t;
    } else {
      assert (a + t)[1..] == a[1..] + t;
      AfterFirstSkips(a[1..], t, key);
      if |key| <= |a + t| {
        assert (a + t)[..|key|][0] == a[0];
      } else {
        TooShort(t, key);
      }
    }
  }

  lemma {:induction false} TooShort(t: string, key: string)
    requires |t| < |key|
    ensures AfterFirst(t, key).None?
  {
  }

  lemma FirstQuoteDecides(name: string, seg: string, rest: string)
    requires '"' !in name && '"' !in seg
    ensures var t := ['"'] + (seg + (['"'] + rest));
      (|Quoted(name)| <= |t| && t[..|Quoted(name)|] == Quoted(name)) <==> seg == name
  {
    var t, key := ['"'] + (seg + (['"'] + rest)), Quoted(name);
    assert t[|seg| + 1] == '"' && key[|name| + 1] == '"';
    assert forall i | 0 <= i < |seg| :: t[i + 1] == seg[i];
    assert forall i | 0 <= i < |name| :: key[i + 1] == name[i];
    if |key| <= |t| && t[..|key|] == key {
      assert forall i | 0 <= i < |key| :: t[i] == key[i];
      assert |seg| == |name|;
      assert t[1..|seg| + 1] == seg && key[1..|name| + 1] == name;
    }
    if seg == name {
      assert t == key + rest;
    }
  }

  lemma {:induction false} NoSecondQuote(name: string, seg: string)
    requires '"' !in name && '"' !in seg
    ensures AfterFirst(['"'] + seg, Quoted(name)).None?
  {
    var t, key := ['"'] + seg, Quoted(name);
    if |key| <= |t| {
      assert key[|key| - 1] == '"' && t[|key| - 1] == seg[|key| - 2];
      assert t[..|key|][|key| - 1] != key[|key| - 1];
      assert t[1..] == seg;
      AfterFirstSkips(seg, "", key);
      assert seg + "" == seg;
      TooShort("", key);
    }
  }

  /** Finding a quoted key in a line is finding its name among the line's segments. */
  lemma {:induction false} FindByName(segs: seq<string>, name: string)
    requires |segs| > 0 && FreeOf(segs, '"') && '"' !in name
    ensures AfterFirst(Join(segs, '"'), Quoted(name)) ==
      match AfterKey(segs, name) { case None => None case Some(rest) => Some(Join(rest, '"')) }
  {
    var key := Quoted(name);
    if |segs| == 1 {
      AfterFirstSkips(segs[0], "", key);
      assert segs[0] + "" == segs[0];
      TooShort("", key);
    } else {
      var t := ['"'] + Join(segs[1..], '"');
      AfterFirstSkips(segs[0], t, key);
      if |segs| == 2 {
        NoSecondQuote(name, segs[1]);
      } else {
        var rest := Join(segs[1..][1..], '"');
        assert segs[1..][1..] == segs[2..];
        FirstQuoteDecides(name, segs[1], rest);
        if segs[1] == name {
          assert t == key + rest;
        } else {
          assert t[1..] == Join(segs[1..], '"');
          FindByName(segs[1..], name);
          if |t| < |key| { TooShort(t[1..], key); }
        }
      }
    }
  }

  lemma {:induction false} AfterKeyAt(segs: seq<string>, name: string, j: nat)
    requires 1 <= j < |segs| - 1 && segs[j] == name
    requires forall i | 1 <= i < j :: segs[i] != name
    ensures AfterKey(segs, name) == Some(segs[j + 1..])
  {
    if j > 1 {
      AfterKeyAt(segs[1..], name, j - 1);
      assert segs[1..][j..] == segs[j + 1..];
    }
  }

  /** AfterFirst on any line, from the position of the name among its quote-separated segments. */
  lemma {:induction false} Locate(line: string, segs: seq<string>, name: string, j: nat)
    requires Split(line, '"') == segs && '"' !in name
    requires 1 <= j < |segs| - 1 && segs[j] == name
    requires forall i | 1 <= i < j :: segs[i] != name
    ensures AfterFirst(line, Quoted(name)) == Some(Join(segs[j + 1..], '"'))
    ensures Split(Join(segs[j + 1..], '"'), '"') == segs[j + 1..]
  {
    JoinSplit(line, '"');
    SplitShape(line, '"');
    FindByName(segs, name);
    AfterKeyAt(segs, name, j);
    SplitJoin(segs[j + 1..], '"');
  }

  // ---- the fields ---------------------------------------------------------------

  /** An integer field printed as :%lld, reads back as itself. */
  lemma LeadingField(x: int, u: string)
    requires -MAX_LL <= x <= MAX_LL
    ensures LeadingLlSpec((":" + Ll(x) + ",") + u) == Value(x)
  {
    var n: nat := if x < 0 then -x else x;
    DecValue(n);
    assert (":" + Ll(x) + ",") + u == ":" + (Ll(x) + ("," + u));
    SignedField((":" + Ll(x) + ",") + u, Dec(n), x < 0, "," + u);
  }

  lemma {:induction false} SignedField(s: string, d: string, neg: bool, stop: string)
    requires d != "" && AllDigits(d) && DigitsValue(d) <= MAX_LL && stop != "" && stop[0] == ','
    requires s == ":" + ((if neg then "-" + d else d) + stop)
    ensures var n: int := DigitsValue(d); LeadingLlSpec(s) == Value(if neg then -n else n)
  {
    assert (if neg then "-" + d else d) + stop == (if neg then "-" else "") + (d + stop);
    LeadingLlReads(s, ":", neg, d, stop);
  }

  predicate IsBlank(c: char) { c == ' ' || c == '\t' || c == ':' }

  /** What extract_lonlong_field makes of any text behind the key: blanks and colons, a sign, digits up
      to the first other character. */
  lemma {:induction false} LeadingLlReads(s: string, blanks: string, neg: bool, d: string, stop: string)
    requires s == blanks + ((if neg then "-" else "") + (d + stop))
    requires (forall i | 0 <= i < |blanks| :: IsBlank(blanks[i])) && AllDigits(d)
    requires stop == "" || !IsDigit(stop[0])
    requires !neg && d == "" ==> stop == "" || (!IsBlank(stop[0]) && stop[0] != '-')
    ensures LeadingLlSpec(s) ==
      if d == "" then Malformed else if DigitsValue(d) > MAX_LL then Overflows
      else var n: int := DigitsValue(d); Value(if neg then -n else n)
  {
    SignAt(s, blanks, (if neg then "-" else "") + (d + stop), neg, d, stop);
    var start := |blanks| + if neg then 1 else 0;
    DigitsAt(s, start, d, stop);
    LlFrom(s, |blanks|, start, d);
  }

  lemma {:induction false} SignAt(s: string, blanks: string, text: string, neg: bool, d: string, stop: string)
    requires s == blanks + text && text == (if neg then "-" else "") + (d + stop)
    requires (forall i | 0 <= i < |blanks| :: IsBlank(blanks[i])) && AllDigits(d)
    requires !neg && d == "" ==> stop == "" || (!IsBlank(stop[0]) && stop[0] != '-')
    ensures var start := |blanks| + if neg then 1 else 0;
      && RunEnd(s, 0, Blanks) == |blanks| && SignEnd(s, |blanks|) == start
      && start <= |s| && s[start..] == d + stop
  {
    assert s[0..] == s;
    AfterBlanks(text, neg, d, stop);
    RunIs(s, Blanks, 0, blanks, text);
    assert |blanks| < |s| ==> s[|blanks|] == text[0];
  }

  lemma {:induction false} DigitsAt(s: string, start: nat, d: string, stop: string)
    requires start <= |s| && s[start..] == d + stop && AllDigits(d) && (stop == "" || !IsDigit(stop[0]))
    ensures s[start..RunEnd(s, start, Digits)] == d
  {
    RunIs(s, Digits, start, d, stop);
  }

  lemma LlFrom(s: string, sign: nat, start: nat, d: string)
    requires RunEnd(s, 0, Blanks) == sign && SignEnd(s, sign) == start && start <= |s|
    requires AllDigits(d) && s[start..RunEnd(s, start, Digits)] == d
    ensures LeadingLlSpec(s) ==
      if d == "" then Malformed else if DigitsValue(d) > MAX_LL then Overflows
      else var n: int := DigitsValue(d); Value(if start > sign then -n else n)
  {
  }

  lemma AfterBlanks(text: string, neg: bool, d: string, stop: string)
    requires text == (if neg then "-" else "") + (d + stop) && AllDigits(d)
    requires !neg && d == "" ==> stop == "" || (!IsBlank(stop[0]) && stop[0] != '-')
    ensures text == "" || !Blanks.Has(text[0])
    ensures neg <==> (text != "" && text[0] == '-')
  {
    if !neg {
      if d == "" { assert text == stop; } else { assert text[0] == d[0]; }
    }
  }

  predicate IsNumberChar(c: char) { IsDigit(c) || c in ".eE+-" }

  /** What extract_double_field collects behind the key. */
  lemma {:induction false} NumberTextReads(s: string, blanks: string, number: string, stop: string)
    requires s == blanks + (number + stop)
    requires (forall i | 0 <= i < |blanks| :: IsBlank(blanks[i])) && (forall i | 0 <= i < |number| :: IsNumberChar(number[i]))
    requires stop == "" || !IsNumberChar(stop[0])
    requires number == "" ==> stop == "" || !IsBlank(stop[0])
    ensures NumberText(s) == number
  {
    assert s[0..] == s;
    assert number + stop == "" || !Blanks.Has((number + stop)[0]) by {
      if number == "" { assert number + stop == stop; } else { assert (number + stop)[0] == number[0]; }
    }
    RunIs(s, Blanks, 0, blanks, number + stop);
    RunIs(s, NumberChars, |blanks|, number, stop);
  }

  /** What extract_string_field reads behind the key: the text between the first two quotes. */
  lemma {:induction false} QuotedTextReads(before: string, text: string, rest: string)
    requires '"' !in before && '"' !in text
    ensures QuotedText(before + (['"'] + (text + (['"'] + rest)))) == Some(text)
    ensures QuotedText(before).None? && QuotedText(before + (['"'] + text)).None?
  {
    SplitFirst(before, text + (['"'] + rest), '"');
    SplitFirst(text, rest, '"');
    SplitWithout(before, '"');
    SplitFirst(before, text, '"');
    SplitWithout(text, '"');
  }

  /** A price field printed as :%.2f, reads back as itself. */
  lemma PriceField(cents: int, u: string)
    ensures NumberText((":" + Price(cents) + ",") + u) == Price(cents)
    ensures ParsePrice(Price(cents)) == Some(cents)
  {
    var s := (":" + Price(cents) + ",") + u;
    assert s[0..] == ":" + (Price(cents) + ("," + u));
    RunIs(s, Blanks, 0, ":", Price(cents) + ("," + u));
    assert s[1..] == Price(cents) + ("," + u);
    RunIs(s, NumberChars, 1, Price(cents), "," + u);
    PriceParses(cents);
  }

  /** A field that starts with a comma holds no number. */
  lemma NoNumber(u: string)
    ensures LeadingLlSpec("," + u) == Malformed && NumberText("," + u) == ""
  {
    var s := "," + u;
    assert RunEnd(s, 0, Blanks) == 0 && RunEnd(s, 0, Digits) == 0 && RunEnd(s, 0, NumberChars) == 0;
  }

  // ---- one line -----------------------------------------------------------------

  /** The events that the journal can hold: to_ll's range, an NUL-terminated symbol, an ip:port
      source, and printed text that fits both fixed buffers. */
  ghost predicate Representable(ev: Event) {
    && InRange(PayloadOf(ev))
    && |ev.symbol| < SYMBOL_LEN && '\0' !in ev.symbol
    && '"' !in ev.src && '\n' !in ev.src && '\0' !in ev.src
    && |JsonLine(ev)| + 1 < LINE_BUFFER && |Message(PayloadOf(ev))| < MESSAGE_BUFFER
  }

  /** The symbols that survive: no byte that delimits a field, a line or a token, and not the
      name of a key that the replay parser looks for behind the symbol. */
  predicate Clean(symbol: string) {
    '"' !in symbol && '\n' !in symbol && '|' !in symbol && symbol != "price" && symbol != "size"
  }

  /** The printed text around the symbol has neither quotes inside a piece nor newlines. */
  lemma PiecesAreFree(ev: Event, c: char)
    requires c == '"' || c == '\n'
    requires c !in ev.src
    ensures FreeOf(Prefix(ev), c) && FreeOf(Suffix(ev), c)
  {
    PrefixIsFree(ev, c);
    SuffixIsFree(ev, c);
  }

  lemma PrefixIsFree(ev: Event, c: char)
    requires c == '"' || c == '\n'
    ensures FreeOf(Prefix(ev), c)
  {
    ValueIsFree(Ll(ev.seqNo), ev.seqNo, c);
    ValueIsFree(Ll(ev.msgTs), ev.msgTs, c);
    ValueIsFree(Ll(ev.recvTs), ev.recvTs, c);
    ValueIsFree(Ll(ev.latency), ev.latency, c);
  }

  lemma SuffixIsFree(ev: Event, c: char)
    requires c == '"' || c == '\n'
    requires c !in ev.src
    ensures FreeOf(Suffix(ev), c)
  {
    ValueIsFree(Price(ev.price), ev.price, c);
    ValueIsFree(Ll(ev.size), ev.size, c);
  }

  lemma ValueIsFree(text: string, x: int, c: char)
    requires c == '"' || c == '\n'
    requires text == Ll(x) || text == Price(x)
    ensures c !in ":" + text + ","
  {
    NumbersAreClean(x, c);
  }

  lemma Reassociate(a: seq<string>, b: seq<string>, c: seq<string>)
    ensures a + b + c == a + (b + c)
  {
  }

  /** The quote-separated segments of a printed line. */
  lemma LineSegments(ev: Event)
    requires '"' !in ev.src
    ensures Split(JsonLine(ev), '"') == Prefix(ev) + (Split(ev.symbol, '"') + Suffix(ev))
    ensures '"' !in ev.symbol ==> Split(JsonLine(ev), '"') == Prefix(ev) + [ev.symbol] + Suffix(ev)
    ensures '"' !in ev.symbol ==> Split(ev.symbol, '"') == [ev.symbol]
  {
    PiecesAreFree(ev, '"');
    SplitAround(Prefix(ev), ev.symbol, Suffix(ev), '"');
    Reassociate(Prefix(ev), Split(ev.symbol, '"'), Suffix(ev));
    if '"' !in ev.symbol { SplitWithout(ev.symbol, '"'); }
  }

  /** A key among the first segments, or among the last ones and not among the first. */
  lemma LocateEarly(line: string, pre: seq<string>, rest: seq<string>, name: string, j: nat)
    requires Split(line, '"') == pre + rest && |rest| > 0 && '"' !in name
    requires 1 <= j < |pre| && pre[j] == name && forall i | 1 <= i < j :: pre[i] != name
    ensures AfterFirst(line, Quoted(name)) == Some(Join(pre[j + 1..] + rest, '"'))
    ensures Split(Join(pre[j + 1..] + rest, '"'), '"') == pre[j + 1..] + rest
  {
    Locate(line, pre + rest, name, j);
    assert (pre + rest)[j + 1..] == pre[j + 1..] + rest;
  }

  lemma {:induction false} LocateLate(line: string, pre: seq<string>, rest: seq<string>, name: string, j: nat)
    requires Split(line, '"') == pre + rest && |pre| > 0 && name !in pre && '"' !in name
    requires j < |rest| - 1 && rest[j] == name && forall i | 0 <= i < j :: rest[i] != name
    ensures AfterFirst(line, Quoted(name)) == Some(Join(rest[j + 1..], '"'))
  {
    var segs := pre + rest;
    forall i | 1 <= i < |pre| + j ensures segs[i] != name {
      if i < |pre| { assert segs[i] in pre; } else { assert segs[i] == rest[i - |pre|]; }
    }
    Locate(line, segs, name, |pre| + j);
    assert segs[|pre| + j + 1..] == rest[j + 1..];
  }

  lemma FieldBeforeSymbol(ev: Event, name: string, j: nat)
    requires '"' !in ev.src && '"' !in name && 1 <= j < |Prefix(ev)| && Prefix(ev)[j] == name
    requires forall i | 1 <= i < j :: Prefix(ev)[i] != name
    ensures var rest := Prefix(ev)[j + 1..] + (Split(ev.symbol, '"') + Suffix(ev));
      AfterFirst(JsonLine(ev), Quoted(name)) == Some(Join(rest, '"')) && Split(Join(rest, '"'), '"') == rest
  {
    LineSegments(ev);
    LocateEarly(JsonLine(ev), Prefix(ev), Split(ev.symbol, '"') + Suffix(ev), name, j);
  }

  lemma FieldAfterSymbol(ev: Event, name: string, j: nat)
    requires '"' !in ev.src && '"' !in ev.symbol && '"' !in name && ev.symbol != name
    requires j < |Suffix(ev)| - 1 && Suffix(ev)[j] == name
    requires forall i | 0 <= i < j :: Suffix(ev)[i] != name
    requires name !in Prefix(ev)
    ensures AfterFirst(JsonLine(ev), Quoted(name)) == Some(Join(Suffix(ev)[j + 1..], '"'))
  {
    LineSegments(ev);
    LocateLate(JsonLine(ev), Prefix(ev) + [ev.symbol], Suffix(ev), name, j);
  }

  lemma KeyIsSymbol(ev: Event)
    requires '"' !in ev.src && '"' !in ev.symbol && ev.symbol !in Prefix(ev)
    ensures AfterFirst(JsonLine(ev), Quoted(ev.symbol)) == Some(Join(Suffix(ev), '"'))
  {
    LineSegments(ev);
    Reassociate(Prefix(ev), [ev.symbol], Suffix(ev));
    LocateLate(JsonLine(ev), Prefix(ev), [ev.symbol] + Suffix(ev), ev.symbol, 0);
    assert ([ev.symbol] + Suffix(ev))[1..] == Suffix(ev);
  }

  /** No key name equals one of the printed values in front of the symbol. */
  lemma ValuesAreNoNames(ev: Event, name: string)
    requires name != "" && name[0] != ':' && name[0] != '{'
    ensures name !in [Prefix(ev)[0], Prefix(ev)[2], Prefix(ev)[4], Prefix(ev)[6], Prefix(ev)[8], Prefix(ev)[10]]
  {
    assert Prefix(ev)[2][0] == Prefix(ev)[4][0] == Prefix(ev)[6][0] == Prefix(ev)[8][0] == ':';
  }

  lemma SeqField(ev: Event)
    requires '"' !in ev.src && InRange(PayloadOf(ev))
    ensures ExtractLlSpec(JsonLine(ev), "\"seq\"") == Value(ev.seqNo)
    ensures ExtractLlSpec(JsonLine(ev), "\"msg_ts_ms\"") == Value(ev.msgTs)
  {
    assert Quoted("seq") == "\"seq\"" && Quoted("msg_ts_ms") == "\"msg_ts_ms\"";
    FieldBeforeSymbol(ev, "seq", 1);
    FieldBeforeSymbol(ev, "msg_ts_ms", 3);
    HeadField(Prefix(ev)[2..] + (Split(ev.symbol, '"') + Suffix(ev)), ev.seqNo);
    HeadField(Prefix(ev)[4..] + (Split(ev.symbol, '"') + Suffix(ev)), ev.msgTs);
  }

  lemma {:induction false} HeadField(segs: seq<string>, x: int)
    requires |segs| > 1 && segs[0] == ":" + Ll(x) + "," && -MAX_LL <= x <= MAX_LL
    ensures LeadingLlSpec(Join(segs, '"')) == Value(x)
  {
    LeadingField(x, ['"'] + Join(segs[1..], '"'));
  }

  /** The extracted symbol is the printed one up to its first double quote. */
  lemma SymbolField(ev: Event)
    requires '"' !in ev.src
    ensures ExtractStringSpec(JsonLine(ev), "\"symbol\"") == Some(Split(ev.symbol, '"')[0])
  {
    assert Quoted("symbol") == "\"symbol\"";
    ValuesAreNoNames(ev, "symbol");
    FieldBeforeSymbol(ev, "symbol", 9);
    assert Prefix(ev)[10..] == [":"];
  }

  /** The price is found unless the symbol itself is the key; likewise the size. */
  lemma PriceOfLine(ev: Event)
    requires '"' !in ev.src && '"' !in ev.symbol
    ensures ExtractPriceSpec(JsonLine(ev), "\"price\"") == if ev.symbol == "price" then None else Some(ev.price)
  {
    assert Quoted("price") == "\"price\"";
    ValuesAreNoNames(ev, "price");
    if ev.symbol == "price" {
      KeyIsSymbol(ev);
      NothingBehindKey(ev);
    } else {
      FieldAfterSymbol(ev, "price", 1);
      PriceHead(Suffix(ev)[2..], ev.price);
    }
  }

  lemma {:induction false} PriceHead(segs: seq<string>, cents: int)
    requires |segs| > 1 && segs[0] == ":" + Price(cents) + ","
    ensures LeadingPriceSpec(Join(segs, '"')) == Some(cents)
  {
    PriceField(cents, ['"'] + Join(segs[1..], '"'));
  }

  /** Right behind the symbol there is no number. */
  lemma NothingBehindKey(ev: Event)
    ensures LeadingLlSpec(Join(Suffix(ev), '"')) == Malformed && NumberText(Join(Suffix(ev), '"')) == ""
  {
    assert Join(Suffix(ev), '"') == "," + (['"'] + Join(Suffix(ev)[1..], '"'));
    NoNumber(['"'] + Join(Suffix(ev)[1..], '"'));
  }

  lemma SizeOfLine(ev: Event)
    requires '"' !in ev.src && '"' !in ev.symbol && InRange(PayloadOf(ev))
    ensures ExtractLlSpec(JsonLine(ev), "\"size\"") == if ev.symbol == "size" then Malformed else Value(ev.size)
  {
    assert Quoted("size") == "\"size\"";
    ValuesAreNoNames(ev, "size");
    if ev.symbol == "size" {
      KeyIsSymbol(ev);
      NothingBehindKey(ev);
    } else {
      FieldAfterSymbol(ev, "size", 3);
      HeadField(Suffix(ev)[4..], ev.size);
    }
  }

  /** What replay_sender reads from one printed line. */
  lemma ExtractedLine(ev: Event)
    requires '"' !in ev.src && '"' !in ev.symbol && InRange(PayloadOf(ev))
    ensures Extracted(JsonLine(ev)) ==
      if ev.symbol == "price" || ev.symbol == "size" then None else Some(PayloadOf(ev))
  {
    SeqField(ev);
    PriceOfLine(ev);
    SizeOfLine(ev);
    SymbolField(ev);
    SplitWithout(ev.symbol, '"');
  }

  lemma RecvField(ev: Event)
    requires '"' !in ev.src && -MAX_LL <= ev.recvTs <= MAX_LL
    ensures ExtractLlSpec(JsonLine(ev), "\"recv_ts_ms\"") == Value(ev.recvTs)
  {
    assert Quoted("recv_ts_ms") == "\"recv_ts_ms\"";
    ValuesAreNoNames(ev, "recv_ts_ms");
    FieldBeforeSymbol(ev, "recv_ts_ms", 5);
    HeadField(Prefix(ev)[6..] + (Split(ev.symbol, '"') + Suffix(ev)), ev.recvTs);
  }

  lemma LatencyField(ev: Event)
    requires '"' !in ev.src && -MAX_LL <= ev.latency <= MAX_LL
    ensures ExtractLlSpec(JsonLine(ev), "\"latency_ms\"") == Value(ev.latency)
  {
    assert Quoted("latency_ms") == "\"latency_ms\"";
    ValuesAreNoNames(ev, "latency_ms");
    FieldBeforeSymbol(ev, "latency_ms", 7);
    HeadField(Prefix(ev)[8..] + (Split(ev.symbol, '"') + Suffix(ev)), ev.latency);
  }

  /** The source is found unless the symbol itself is the key. */
  lemma SrcField(ev: Event)
    requires '"' !in ev.src && '"' !in ev.symbol
    ensures ExtractStringSpec(JsonLine(ev), "\"src\"") == Some(if ev.symbol == "src" then "price" else ev.src)
  {
    assert Quoted("src") == "\"src\"";
    ValuesAreNoNames(ev, "src");
    PiecesAreFree(ev, '"');
    if ev.symbol == "src" {
      KeyIsSymbol(ev);
      SplitJoin(Suffix(ev), '"');
    } else {
      FieldAfterSymbol(ev, "src", 5);
      assert Suffix(ev)[6..] == [":", ev.src, "}"];
      SplitJoin(Suffix(ev)[6..], '"');
    }
  }

  /** The events all of whose numbers fit 64 bits, in sender strings and symbols that do not break
      the line or hide a field behind the symbol. */
  ghost predicate Readable(ev: Event) {
    && InRange(PayloadOf(ev)) && -MAX_LL <= ev.recvTs <= MAX_LL && -MAX_LL <= ev.latency <= MAX_LL
    && '"' !in ev.src && '"' !in ev.symbol
    && ev.symbol != "price" && ev.symbol != "size" && ev.symbol != "src"
  }

  /** Each of the eight fields reads back under its own key. */
  ghost predicate Carries(line: string, ev: Event) {
    && ExtractLlSpec(line, "\"seq\"") == Value(ev.seqNo)
    && ExtractLlSpec(line, "\"msg_ts_ms\"") == Value(ev.msgTs)
    && ExtractLlSpec(line, "\"recv_ts_ms\"") == Value(ev.recvTs)
    && ExtractLlSpec(line, "\"latency_ms\"") == Value(ev.latency)
    && ExtractStringSpec(line, "\"symbol\"") == Some(ev.symbol)
    && ExtractPriceSpec(line, "\"price\"") == Some(ev.price)
    && ExtractLlSpec(line, "\"size\"") == Value(ev.size)
    && ExtractStringSpec(line, "\"src\"") == Some(ev.src)
  }

  lemma EveryFieldReadsBack(ev: Event)
    requires Readable(ev)
    ensures Carries(JsonLine(ev), ev)
  {
    SeqField(ev);
    RecvField(ev);
    LatencyField(ev);
    PriceOfLine(ev);
    SizeOfLine(ev);
    SymbolField(ev);
    SplitWithout(ev.symbol, '"');
    SrcField(ev);
  }

  // ---- the format string ----------------------------------------------------------

  /** Every second piece in double quotes. */
  ghost function Alternate(pieces: seq<string>): seq<string> {
    seq(|pieces|, i requires 0 <= i < |pieces| => if i % 2 == 1 then Quoted(pieces[i]) else pieces[i])
  }

  lemma {:induction false} JoinIsAlternate(pieces: seq<string>)
    requires |pieces| % 2 == 1
    ensures Join(pieces, '"') == GatherWrite.Flatten(Alternate(pieces))
    decreases |pieces|
  {
    if |pieces| == 1 {
      OnePiece(pieces[0]);
      assert pieces == [pieces[0]];
    } else {
      var a, b, rest := pieces[0], pieces[1], pieces[2..];
      assert pieces == [a, b] + rest;
      JoinIsAlternate(rest);
      AlternateStep(a, b, rest);
      JoinTwo(a, b, rest);
      QuotesAround(a, b, Join(rest, '"'));
    }
  }

  lemma OnePiece(a: string)
    ensures Join([a], '"') == GatherWrite.Flatten(Alternate([a]))
  {
    assert Alternate([a]) == [a] && [a][1..] == [];
    assert a + "" == a;
  }

  lemma {:induction false} AlternateStep(a: string, b: string, rest: seq<string>)
    ensures GatherWrite.Flatten(Alternate([a, b] + rest)) == a + (Quoted(b) + GatherWrite.Flatten(Alternate(rest)))
  {
    var alt := Alternate([a, b] + rest);
    assert alt == [a, Quoted(b)] + Alternate(rest);
    assert alt[1..] == [Quoted(b)] + Alternate(rest) && alt[1..][1..] == Alternate(rest);
  }

  lemma {:induction false} JoinTwo(a: string, b: string, rest: seq<string>)
    requires rest != []
    ensures Join([a, b] + rest, '"') == a + (['"'] + (b + (['"'] + Join(rest, '"'))))
  {
    assert ([a, b] + rest)[1..] == [b] + rest && ([b] + rest)[1..] == rest;
  }

  lemma QuotesAround(a: string, b: string, rest: string)
    ensures a + (['"'] + (b + (['"'] + rest))) == a + (Quoted(b) + rest)
  {
  }

  /** The journal's format string: the eight keys in quotes, each followed by its own value. */
  lemma {:induction false} JsonLineIsFormat(ev: Event)
    ensures JsonLine(ev) == GatherWrite.Flatten([
      "{", Quoted("seq"), ":" + Ll(ev.seqNo) + ",",
      Quoted("msg_ts_ms"), ":" + Ll(ev.msgTs) + ",",
      Quoted("recv_ts_ms"), ":" + Ll(ev.recvTs) + ",",
      Quoted("latency_ms"), ":" + Ll(ev.latency) + ",",
      Quoted("symbol"), ":", Quoted(ev.symbol), ",",
      Quoted("price"), ":" + Price(ev.price) + ",",
      Quoted("size"), ":" + Ll(ev.size) + ",",
      Quoted("src"), ":", Quoted(ev.src), "}"])
  {
    var pieces := Prefix(ev) + [ev.symbol] + Suffix(ev);
    JoinIsAlternate(pieces);
    FormatPieces(pieces, ev.symbol, ev.src, ":" + Ll(ev.seqNo) + ",", ":" + Ll(ev.msgTs) + ",", ":" + Ll(ev.recvTs) + ",",
                 ":" + Ll(ev.latency) + ",", ":" + Price(ev.price) + ",", ":" + Ll(ev.size) + ",");
  }

  lemma FormatPieces(pieces: seq<string>, sym: string, src: string,
                     a: string, b: string, c: string, d: string, e: string, f: string)
    requires pieces == ["{", "seq", a, "msg_ts_ms", b, "recv_ts_ms", c, "latency_ms", d, "symbol", ":"] + [sym]
                       + [",", "price", e, "size", f, "src", ":", src, "}"]
    ensures Alternate(pieces) == ["{", Quoted("seq"), a, Quoted("msg_ts_ms"), b, Quoted("recv_ts_ms"), c,
      Quoted("latency_ms"), d, Quoted("symbol"), ":", Quoted(sym), ",", Quoted("price"), e, Quoted("size"), f,
      Quoted("src"), ":", Quoted(src), "}"]
  {
  }

  // ---- whole journals -----------------------------------------------------------

  lemma {:induction false} JoinKeepsOut(tokens: seq<string>, d: char, c: char)
    requires c != d && FreeOf(tokens, c)
    ensures c !in Join(tokens, d)
  {
    if |tokens| > 1 { JoinKeepsOut(tokens[1..], d, c); }
  }

  lemma LineHasNoNewline(ev: Event)
    requires '\n' !in ev.src && '\n' !in ev.symbol
    ensures '\n' !in JsonLine(ev)
  {
    PiecesAreFree(ev, '\n');
    JoinKeepsOut(Prefix(ev) + [ev.symbol] + Suffix(ev), '"', '\n');
  }

  lemma {:induction false} FirstLine(ev: Event, rest: string)
    requires '\n' !in ev.src && '\n' !in ev.symbol
    ensures Split(JsonLine(ev) + ("\n" + rest), '\n') == [JsonLine(ev)] + Split(rest, '\n')
  {
    LineHasNoNewline(ev);
    SplitFirst(JsonLine(ev), rest, '\n');
    assert ['\n'] + rest == "\n" + rest;
  }

  function JsonLines(evs: seq<Event>): seq<string> {
    seq(|evs|, i requires 0 <= i < |evs| => JsonLine(evs[i]))
  }

  /** The newline-separated pieces of a journal: its lines and an empty rest. */
  lemma {:induction false} JournalLines(evs: seq<Event>)
    requires forall i | 0 <= i < |evs| :: '\n' !in evs[i].src && '\n' !in evs[i].symbol
    ensures Split(JournalText(evs), '\n') == JsonLines(evs) + [""]
  {
    if evs == [] {
      assert JsonLines(evs) == [];
    } else {
      var rest := JournalText(evs[1..]);
      JournalLines(evs[1..]);
      FirstLine(evs[0], rest);
      assert JournalText(evs) == JsonLine(evs[0]) + ("\n" + rest);
      LinesCons(JsonLine(evs[0]), JsonLines(evs[1..]));
      LinesSplit(evs);
    }
  }

  lemma {:induction false} LinesSplit(evs: seq<Event>)
    requires evs != []
    ensures JsonLines(evs) == [JsonLine(evs[0])] + JsonLines(evs[1..])
  {
    forall i | 0 <= i < |evs| - 1 ensures JsonLines(evs)[i + 1] == JsonLines(evs[1..])[i] {
      assert evs[i + 1] == evs[1..][i];
    }
    IsCons(JsonLines(evs), JsonLine(evs[0]), JsonLines(evs[1..]));
  }

  lemma IsCons(a: seq<string>, x: string, b: seq<string>)
    requires |a| == |b| + 1 && a[0] == x && forall i | 0 <= i < |b| :: a[i + 1] == b[i]
    ensures a == [x] + b
  {
  }

  lemma LinesCons(line: string, lines: seq<string>)
    ensures [line] + (lines + [""]) == ([line] + lines) + [""]
  {
  }

  lemma LineIsNotEmpty(ev: Event)
    ensures JsonLine(ev) != ""
  {
    assert Prefix(ev) + [ev.symbol] + Suffix(ev) == ["{"] + (Prefix(ev)[1..] + [ev.symbol] + Suffix(ev));
  }

  /** The message replayed for one printed line. */
  lemma MessageForLine(ev: Event)
    requires Representable(ev) && Clean(ev.symbol)
    ensures MessageFor(JsonLine(ev)) == Some(Message(PayloadOf(ev)))
  {
    LineIsNotEmpty(ev);
    ExtractedLine(ev);
  }

  /** One feed message per event. */
  ghost predicate AreMessages(messages: seq<string>, evs: seq<Event>) {
    |messages| == |evs| && forall i | 0 <= i < |evs| :: messages[i] == Message(PayloadOf(evs[i]))
  }

  /** The lines of a journal are replayed one by one; the empty rest behind the last newline is not. */
  lemma {:induction false} ReplayedIs(evs: seq<Event>)
    requires forall i | 0 <= i < |evs| :: '\n' !in evs[i].src && '\n' !in evs[i].symbol
    ensures Replayed(Split(JournalText(evs), '\n')) == Somes(MessagesFor(JsonLines(evs)))
  {
    JournalLines(evs);
    assert MessagesFor(JsonLines(evs) + [""]) == MessagesFor(JsonLines(evs)) + [None];
    SomesConcat(MessagesFor(JsonLines(evs)), [None]);
    assert Somes([None] + []) == Somes<string>([]);
  }

  lemma {:induction false} ReplayedClean(evs: seq<Event>)
    requires forall i | 0 <= i < |evs| :: Representable(evs[i]) && Clean(evs[i].symbol)
    ensures AreMessages(Replayed(Split(JournalText(evs), '\n')), evs)
  {
    var all := MessagesFor(JsonLines(evs));
    var messages := seq(|evs|, i requires 0 <= i < |evs| => Message(PayloadOf(evs[i])));
    forall i | 0 <= i < |evs| ensures all[i] == Some(messages[i]) {
      MessageForLine(evs[i]);
    }
    SomesAll(all, messages);
    ReplayedIs(evs);
  }

  /** Receiving the messages of clean events gives events with their payloads, whenever each arrives
      and whoever it comes from. */
  lemma {:induction false} ReceivedMessages(evs: seq<Event>, ds: seq<Datagram>)
    requires forall i | 0 <= i < |evs| :: Representable(evs[i]) && Clean(evs[i].symbol)
    requires |ds| == |evs| && forall i | 0 <= i < |evs| :: ds[i].bytes == Message(PayloadOf(evs[i]))
    ensures Payloads(ParsedEvents(ds)) == Payloads(evs)
  {
    var all := Receptions(ds);
    forall i | 0 <= i < |evs| ensures all[i].Some? && PayloadOf(all[i].value) == PayloadOf(evs[i]) {
      ReceiveMessage(PayloadOf(evs[i]), ds[i].recvTs, ds[i].src);
    }
    var got := seq(|evs|, i requires 0 <= i < |evs| => all[i].value);
    SomesAll(all, got);
  }

  /** Datagrams that carry the messages replayed from a journal, each with its own receive time and
      sender. */
  ghost predicate CarryReplay(ds: seq<Datagram>, text: string) {
    var messages := Replayed(Split(text, '\n'));
    |ds| == |messages| && forall i | 0 <= i < |ds| :: ds[i].bytes == messages[i]
  }

  /** Replaying a whole journal delivers every event's payload, in order, when every symbol is clean. */
  lemma {:induction false} JournalRoundTrip(evs: seq<Event>, ds: seq<Datagram>)
    requires forall i | 0 <= i < |evs| :: Representable(evs[i]) && Clean(evs[i].symbol)
    requires CarryReplay(ds, JournalText(evs))
    ensures Payloads(ParsedEvents(ds)) == Payloads(evs)
  {
    ReplayedClean(evs);
    ReceivedMessages(evs, ds);
  }

  // ---- exactly when -------------------------------------------------------------

  /** What replay extracts from newline-free lines has a newline-free symbol, and numbers in range. */
  lemma ExtractedHasNoNewline(line: string)
    requires '\n' !in line && Extracted(line).Some?
    ensures InRange(Extracted(line).value) && '\n' !in Extracted(line).value.symbol
  {
    ExtractedInRange(line, "\"seq\"");
    ExtractedInRange(line, "\"msg_ts_ms\"");
    ExtractedInRange(line, "\"size\"");
    ExtractedIsInside(line, "\"symbol\"", '\n');
  }

  lemma ExtractedInRange(line: string, key: string)
    ensures var r := ExtractLlSpec(line, key); r.Value? ==> -MAX_LL <= r.v <= MAX_LL
  {
  }

  lemma ExtractedIsInside(line: string, key: string, c: char)
    requires c !in line
    ensures var r := ExtractStringSpec(line, key); r.Some? ==> c !in r.value
  {
    FindIsAfterFirst(line, key);
    if ExtractStringSpec(line, key).Some? {
      var rest := AfterFirst(line, key).value;
      JoinSplit(rest, '"');
      if c in Split(rest, '"')[1] {
        MemberOfJoin(Split(rest, '"'), '"', 1, c);
      }
    }
  }

  lemma {:induction false} MemberOfJoin(tokens: seq<string>, d: char, i: nat, c: char)
    requires i < |tokens| && c in tokens[i]
    ensures c in Join(tokens, d)
  {
    if i > 0 { MemberOfJoin(tokens[1..], d, i - 1, c); }
  }

  /** No event received from a replayed journal has a newline in its symbol. */
  lemma {:induction false} ReceivedHasNoNewline(lines: seq<string>, ds: seq<Datagram>, j: nat)
    requires FreeOf(lines, '\n') && j < |ParsedEvents(ds)|
    requires |ds| == |Replayed(lines)| && forall i | 0 <= i < |ds| :: ds[i].bytes == Replayed(lines)[i]
    ensures '\n' !in ParsedEvents(ds)[j].symbol
  {
    SomesMember(Receptions(ds), j);
    var m :| 0 <= m < |ds| && Receptions(ds)[m] == Some(ParsedEvents(ds)[j]);
    SomesMember(MessagesFor(lines), m);
    var i :| 0 <= i < |lines| && MessagesFor(lines)[i] == Some(Replayed(lines)[m]);
    ReceivedFromLine(lines[i], ds[m].recvTs, ds[m].src);
  }

  lemma ReceivedFromLine(line: string, recvTs: int, src: string)
    requires '\n' !in line && MessageFor(line).Some?
    ensures var r := Receive(MessageFor(line).value, recvTs, src); r.Some? ==> '\n' !in r.value.symbol
  {
    ExtractedHasNoNewline(line);
    ReceiveMessage(Extracted(line).value, recvTs, src);
  }

  lemma PayloadAt(a: seq<Event>, b: seq<Event>, j: nat)
    requires Payloads(a) == Payloads(b) && j < |b|
    ensures |a| == |b| && PayloadOf(a[j]) == PayloadOf(b[j])
  {
    assert |a| == |Payloads(a)| == |b|;
    assert Payloads(a)[j] == PayloadOf(a[j]) && Payloads(b)[j] == PayloadOf(b[j]);
  }

  /** With a newline in a symbol no replayed symbol can equal it. */
  lemma {:induction false} NewlineIsLost(evs: seq<Event>, ds: seq<Datagram>, j: nat)
    requires j < |evs| && '\n' in evs[j].symbol && CarryReplay(ds, JournalText(evs))
    ensures Payloads(ParsedEvents(ds)) != Payloads(evs)
  {
    var lines := Split(JournalText(evs), '\n');
    SplitShape(JournalText(evs), '\n');
    if Payloads(ParsedEvents(ds)) == Payloads(evs) {
      PayloadAt(ParsedEvents(ds), evs, j);
      ReceivedHasNoNewline(lines, ds, j);
    }
  }

  /** Newline-free lines give at most one event each; as many events as lines means that every line
      gave its own. */
  lemma {:induction false} EveryLineSurvived(evs: seq<Event>, ds: seq<Datagram>)
    requires forall i | 0 <= i < |evs| :: '\n' !in evs[i].src && '\n' !in evs[i].symbol
    requires CarryReplay(ds, JournalText(evs)) && |ParsedEvents(ds)| == |evs|
    ensures |ds| == |evs|
    ensures forall i | 0 <= i < |evs| ::
      && MessageFor(JsonLine(evs[i])) == Some(ds[i].bytes)
      && Receive(ds[i].bytes, ds[i].recvTs, ds[i].src) == Some(ParsedEvents(ds)[i])
  {
    ReplayedIs(evs);
    var all := MessagesFor(JsonLines(evs));
    SomesBound(all);
    SomesBound(Receptions(ds));
    forall i | 0 <= i < |evs|
      ensures MessageFor(JsonLine(evs[i])) == Some(ds[i].bytes)
      ensures Receive(ds[i].bytes, ds[i].recvTs, ds[i].src) == Some(ParsedEvents(ds)[i])
    {
      assert all[i] == MessageFor(JsonLine(evs[i])) && Receptions(ds)[i] == Some(ParsedEvents(ds)[i]);
    }
  }

  /** A line whose symbol is not clean never yields its own payload. */
  lemma DirtyLine(ev: Event, m: string, recvTs: int, src: string)
    requires Representable(ev) && '\n' !in ev.symbol && !Clean(ev.symbol)
    requires MessageFor(JsonLine(ev)) == Some(m) && Receive(m, recvTs, src).Some?
    ensures PayloadOf(Receive(m, recvTs, src).value) != PayloadOf(ev)
  {
    if '"' in ev.symbol {
      QuoteTruncates(ev, recvTs, src);
    } else {
      ExtractedLine(ev);
      ReceiveMessage(PayloadOf(ev), recvTs, src);
    }
  }

  /** With a double quote in the symbol only the text before it is replayed. */
  lemma QuoteTruncates(ev: Event, recvTs: int, src: string)
    requires Representable(ev) && '"' in ev.symbol && '\n' !in ev.symbol
    requires Extracted(JsonLine(ev)).Some?
    ensures var r := Receive(Message(Extracted(JsonLine(ev)).value), recvTs, src);
      r.Some? ==> |r.value.symbol| < |ev.symbol|
  {
    SymbolField(ev);
    LineHasNoNewline(ev);
    ExtractedHasNoNewline(JsonLine(ev));
    ReceiveMessage(Extracted(JsonLine(ev)).value, recvTs, src);
    FirstTokenIsShort(ev.symbol, '"');
  }

  lemma {:induction false} FirstTokenIsShort(s: string, d: char)
    requires d in s
    ensures |Split(s, d)[0]| < |s|
  {
    SplitShape(s, d);
    JoinSplit(s, d);
    assert multiset(s)[d] > 0;
    assert |Split(s, d)| > 1;
  }

  /** Replaying a whole journal returns exactly the original payloads if and only if every symbol is
      clean. */
  lemma {:induction false} RoundTripExactlyWhenClean(evs: seq<Event>, ds: seq<Datagram>)
    requires forall i | 0 <= i < |evs| :: Representable(evs[i])
    requires CarryReplay(ds, JournalText(evs))
    ensures Payloads(ParsedEvents(ds)) == Payloads(evs) <==> forall i | 0 <= i < |evs| :: Clean(evs[i].symbol)
  {
    if j: nat :| j < |evs| && '\n' in evs[j].symbol {
      NewlineIsLost(evs, ds, j);
    } else if j: nat :| j < |evs| && !Clean(evs[j].symbol) {
      if Payloads(ParsedEvents(ds)) == Payloads(evs) {
        PayloadAt(ParsedEvents(ds), evs, j);
        EveryLineSurvived(evs, ds);
        DirtyLine(evs[j], ds[j].bytes, ds[j].recvTs, ds[j].src);
      }
    } else {
      JournalRoundTrip(evs, ds);
    }
  }
}
