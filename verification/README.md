# A verified model of the trading pipeline

The engine receives market data over UDP, journals it, and hands it through a lock-free ring to a consumer
that maintains an L2 order book; client orders are checked against risk limits and matched against that book.
This project models that in-process pipeline in Dafny and proves what it promises, and exactly where it does not.

Check everything with `dafny verify dfyconfig.toml`.

## What is modelled

- **The ring** (`RingArith`, `SpscQueue`, `SpscProtocol`). `SpscQueue` is the class with its slots and indices;
  every call is proved against an abstract ring. `SpscProtocol` interleaves one producer and one consumer at every
  index load, slot access and index store, each side acting on stale copies. Masked 64-bit index arithmetic is
  proved equal to arithmetic modulo the capacity, including a wrapping `tail - head`.
- **The book** (`Levels`, `Matching`, `OrderBook`, `BookRuns`). A `std::map` side is a list of levels in map order.
  Matching is proved exact, conserving, composable and optimal; runs of feed events and matches keep a book
  uncrossed; a fed book is the last-write-wins image of its log.
- **The order manager** (`OrderState`, `OrderManager`, `ManagerProtocol`, `OrderLedger`, `ManagerTotals`, `ManagerRuns`). The class
  runs one call at a time; the protocol interleaves any number of submits, cancels and feed events, one critical
  section per step. Both are built from the same effect functions, and `SoloSubmit` shows that uninterrupted steps
  add up to the sequential call.
- **Journal, replay, receive** (`Delimited`, `Numerals`, `Events`, `Journal`, `RoundTrip`, `ReplayBook`,
  `GatherWrite`, `Receiver`). The token splitter, the integer parser, the printers, the field extractors, the
  partial-write loop and one pass of the batched receive loop.
- **Receiver and consumer threads** (`Pipeline`, `PipelineRuns`), on top of the ring protocol.
- **The backward file tail** (`FileTail`).

Prices are integers in cents. Byte strings are strings of characters. A mutex-protected section is one step.
The kernel's answers to `writev`, receive times and sender addresses are parameters.

## What turned out not to hold everywhere

- A replayed journal returns the journaled events if and only if no symbol has a double quote, newline or `|` or is
  `price` or `size` (`RoundTripExactlyWhenClean`).
- `read_last_lines` returns nothing for a non-empty file without a newline (`AgreesExactlyWhen`); its docstring
  promises the last lines of any file. The model follows the code.
- `writev_all` can never finish when 64 consecutive empty buffers precede a non-empty one, because it then offers
  the kernel no bytes; without such a gap it always can (`FinishesExactlyWithoutGap`). The receiver's lines are
  never empty.
- The open-order limit can be exceeded by one less than the number of submits in flight, and is
  (`OpenOrdersBounded`, `BoundIsReached`).
- A cancel between the insertion of an order and its status update is undone by that update, whatever else happens
  in between (`CancelWhileOwedBreaks`); a reused client id settles onto the first order's entry, which stays balanced
  only under an exact condition (`SettleBalancedExactlyWhen`).
- A book built only from the feed never has a bid, so no SELL ever fills (`SellsNeverFill`). The comment at
  cpp/src/order_book.cpp:61-63 speaks of a median and of inserting asks below a higher bid; the code puts such a
  price among the bids, and the model follows the code.
- A consumer that leaves by the stop flag abandons exactly what is live in the ring (`StopAbandonsTheRing`).
- `normalize_capacity` terminates exactly for requests up to 2^63 (`TerminatesExactlyUpTo`).

## Model

| member | source | states |
|---|---|---|
| RingArith.MaskIsRemainder | cpp/include/spsc_queue.h:26 | bitwise and with 2^k - 1 is the remainder modulo 2^k, for every word |
| RingArith.MaskedDifference | cpp/include/spsc_queue.h:69 | the masked unsigned difference is the difference modulo the capacity, even when the subtraction wraps |
| RingArith.MaskedIndex | cpp/include/spsc_queue.h:41 | masking an index sum gives the slot that many places further round the ring |
| RingArith.MaskedDistance | cpp/include/spsc_queue.h:69 | masking tail - head gives the number of places from head to tail |
| RingArith.NormalizeCapacity | cpp/include/spsc_queue.h:120-126 | returns the least power of two that is at least max(cap, 2), below 2^64 |
| RingArith.DoublingStep | cpp/include/spsc_queue.h:124 | the shift in the loop is doubling modulo 2^64 |
| RingArith.TerminatesExactlyUpTo | cpp/include/spsc_queue.h:120-126 | the doubling loop reaches its exit if and only if the request is at most 2^63 |
| SpscQueue.SpscQueue.constructor | cpp/include/spsc_queue.h:24-33 | an empty ring of the least sufficient power-of-two capacity |
| SpscQueue.SpscQueue.Push | cpp/include/spsc_queue.h:39-49 | refuses exactly when full; otherwise the item becomes the newest |
| SpscQueue.SpscQueue.PushBulk | cpp/include/spsc_queue.h:64-83 | accepts min(n, free) items and leaves, slot for slot, the ring that single pushes until the first failure leave |
| SpscQueue.SpscQueue.CopyItems | cpp/include/spsc_queue.h:75-78 | the copy loop writes the slots that single pushes would, before tail moves |
| SpscQueue.SpscQueue.Pop | cpp/include/spsc_queue.h:86-95 | returns the oldest item and removes it, or nothing exactly when empty |
| SpscQueue.SpscQueue.Empty | cpp/include/spsc_queue.h:98-100 | true exactly when nothing is live |
| SpscQueue.SpscQueue.ApproxSize | cpp/include/spsc_queue.h:112-117 | on a fixed state the number of live items, equal to push_bulk's masked occupancy and at most capacity - 1 |
| SpscQueue.PushAllAccepts | cpp/include/spsc_queue.h:39-83 | pushing one by one accepts a prefix of min(n, free) items and appends it |
| SpscProtocol.InvStep | cpp/include/spsc_queue.h:39-95 | every load, slot access and index store of either side keeps the ring invariant |
| SpscProtocol.Fifo | cpp/include/spsc_queue.h:39-95 | in every interleaving the published items are the popped ones followed by the live slots: no loss, duplication, reordering or overwrite |
| SpscProtocol.SlotsAreDisjoint | cpp/include/spsc_queue.h:66-95 | in every reachable state the slots a push may still write are disjoint from the slot a pop reads and from all unread slots |
| SpscProtocol.StepTouches | cpp/include/spsc_queue.h:66-95 | a step writes no slot but those the producer may still write, and reads exactly the slot the consumer may read |
| SpscProtocol.StepRefinesQueue | cpp/include/spsc_queue.h:39-95 | every step in every run is a step of a bounded queue: nothing, append what fits, or deliver the oldest |
| SpscProtocol.RefusalsAreHonest | cpp/include/spsc_queue.h:42-91 | a push fails only at an instant when the ring is full and a pop only when it is empty; a bulk push never takes more than fits |
| SpscProtocol.PopDelivers | cpp/include/spsc_queue.h:86-95 | whatever the producer does between its steps, a pop finds nothing exactly when the ring is empty at the instant it looks at tail, and otherwise delivers the item that is the oldest then and releases its slot |
| SpscProtocol.PushDelivers | cpp/include/spsc_queue.h:39-49 | whatever the consumer does between its steps, a push is refused exactly when the ring is full at the instant it looks at head, and otherwise its item is published |
| SpscProtocol.BulkDelivers | cpp/include/spsc_queue.h:74-82 | whatever the consumer does between its steps, a bulk push that sets out to copy count items publishes exactly those |
| SpscProtocol.BulkTakesWhatWasFree | cpp/include/spsc_queue.h:66-72 | whatever the consumer does between the two index loads, a bulk push gives up exactly when the ring was full at the instant it loaded head, and otherwise sets out to copy min(n, free) for that instant |
| SpscProtocol.SoloPop | cpp/include/spsc_queue.h:86-95 | the four steps of an undisturbed pop are the sequential pop: the oldest item and its slot, or nothing on an empty ring |
| SpscProtocol.SoloPush | cpp/include/spsc_queue.h:39-49 | the four steps of an undisturbed push are the sequential push |
| SpscProtocol.SoloStart | cpp/include/spsc_queue.h:64-72 | the two undisturbed loads of a bulk push lead to copying min(n, free) items, or back to rest when that is none |
| SpscProtocol.SoloBulk | cpp/include/spsc_queue.h:64-82 | an undisturbed bulk push, from its call to its return, leaves the ring of repeated single pushes |
| Levels.PutIsUpdate | cpp/src/order_book.cpp:67-72 | writing a level keeps the map order and is a map update at that price |
| Levels.EraseIsRemoval | cpp/src/order_book.cpp:56-57 | erasing a level keeps the map order and removes that price only |
| Levels.SortedIsUnique | cpp/src/order_book.cpp:29-32 | a side is determined by its price-to-size map |
| Matching.MatchSide | cpp/src/order_book.cpp:99-144 | the erase-while-iterating loop computes the fills and remaining levels that the lemmas below are about |
| Matching.FillBound | cpp/src/order_book.cpp:112-114 | on any levels the fills are positive, carry the client's id and total at most the order's size |
| Matching.FillsExactly | cpp/src/order_book.cpp:99-144 | on positive levels exactly min(size, total resting) is filled |
| Matching.FillsWalkTheLevels | cpp/src/order_book.cpp:102-144 | on positive levels the fills follow the levels from the best one on, one record each at that level's price, and every level but the last is filled completely |
| Matching.Conservation | cpp/src/order_book.cpp:105-121 | at every price, resting before = filled + resting after |
| Matching.RestComposes | cpp/src/order_book.cpp:105-121 | matching a then b leaves the levels that matching a + b leaves |
| Matching.FillsCompose | cpp/src/order_book.cpp:105-121 | and fills the same amount at each price |
| Matching.GreedyIsOptimal | cpp/src/order_book.cpp:102-144 | no other way of taking as many units costs less from the asks or brings more from the bids, and the loop's way is one of them |
| OrderBook.OrderBook.ApplyEvent | cpp/src/order_book.cpp:43-73 | the book after an event is the fed book that BookRuns reasons about |
| OrderBook.OrderBook.TopOfBook | cpp/src/order_book.cpp:75-89 | the greatest bid and the least ask, or none exactly when that side is empty |
| OrderBook.OrderBook.MatchOrder | cpp/src/order_book.cpp:91-146 | fills and book are those of matching the opposite side; an unknown symbol or no size changes nothing |
| OrderBook.OrderBook.SetLevel | cpp/src/order_book.cpp:148-158 | sets or removes that price in the named side's price-to-size map; the other side and all other symbols are untouched, and the map order is kept |
| BookRuns.FeedEffect | cpp/src/order_book.cpp:43-73 | an event writes exactly one level, among the bids if and only if a bid rests at or above its price; without size it removes the price from both sides; other symbols are untouched |
| BookRuns.RunsStayUncrossed | cpp/src/order_book.cpp:43-146 | from an uncrossed positive book every run of events and matches stays uncrossed and positive, and no symbol's best bid rises |
| BookRuns.RunsStaySorted | cpp/src/order_book.cpp:43-146 | in every run, from any book, each side stays in the order of its map |
| BookRuns.SellsNeverFill | cpp/src/order_book.cpp:61-72 | from an empty book no run ever lets a SELL fill |
| BookRuns.MatchIsExactAndOptimal | cpp/src/order_book.cpp:91-146 | match_order on a whole book whose opposite side has positive sizes: exact amount, level by level in map order, best possible total, conservation per price, other side and other symbols untouched |
| BookRuns.NothingToMatch | cpp/src/order_book.cpp:91-98 | an order without size, or for an unknown symbol, gets nothing and changes nothing |
| BookRuns.SplitOrder | cpp/src/order_book.cpp:91-146 | an order and its two halves leave the same book and the same fills per price, whatever their limit prices |
| BookRuns.LastWriteWins | cpp/src/order_book.cpp:43-73 | a book fed from empty has no bids, and its asks are the latest positive size at each price of the log |
| BookRuns.ReplayIsIdempotent | cpp/src/order_book.cpp:43-73 | feeding the whole log a second time leaves the book unchanged |
| OrderManager.OrderManager.CountOrders | cpp/src/order_manager.cpp:64-69 | the counting loop returns the number of live, or of open, orders |
| OrderManager.OrderManager.InsertOrder | cpp/src/order_manager.cpp:52-72 | emplaces a NEW entry unless the client id is taken, and sets the gauge |
| OrderManager.OrderManager.SettleOrder | cpp/src/order_manager.cpp:83-124 | moves the entry to OPEN, PARTIAL or FILLED by what was consumed, and sets the gauge |
| OrderManager.OrderManager.SubmitOrder | cpp/src/order_manager.cpp:11-133 | result, orders, book and counters of a submit that runs alone, with every rejection in the order of the checks |
| OrderManager.OutcomeExactlyWhen | cpp/src/order_manager.cpp:15-50 | a submit is accepted if and only if its size is positive and within the limit (none, or one below 2^63), fewer orders than allowed are OPEN or PARTIAL, and there is a book; each of the four reasons is given exactly when its own check is the first to fail |
| OrderManager.SubmitLeaves | cpp/src/order_manager.cpp:51-130 | an accepted order's entry is the order itself with what was not filled remaining and the status that says so, or the first order's entry takes the fills; every counter after an accepted and after a rejected submit |
| OrderManager.OrderManager.CancelOrder | cpp/src/order_manager.cpp:136-154 | succeeds exactly for NEW, OPEN and PARTIAL orders, returns what remained and leaves that order CANCELED with nothing remaining; otherwise nothing changes |
| ManagerProtocol.CancelEndsLive | cpp/src/order_manager.cpp:136-154 | the same in every state of the protocol, with the credited size, the gauge and the counter |
| ManagerProtocol.CancelLeavesLive | cpp/src/order_manager.cpp:142-150 | and takes exactly that order off the live ones |
| ManagerProtocol.CancelSparesOthers | cpp/src/order_manager.cpp:137-140 | a cancel of a filled, canceled or unknown order changes nothing |
| ManagerProtocol.InsertEntersTheOrder | cpp/src/order_manager.cpp:52-62 | a first submit enters the order as it is with all of it remaining, a reused client id enters nothing |
| ManagerProtocol.EntriesStay | cpp/src/order_manager.cpp:51-154 | in every run no entry is forgotten, and its side, symbol, price and original size never change |
| OrderManager.OrderManager.OpenOrderCount | cpp/src/order_manager.cpp:156-164 | the number of OPEN and PARTIAL orders |
| ManagerProtocol.OpenOrdersBounded | cpp/src/order_manager.cpp:29-126 | with at most T submits in flight, open_order_count() never exceeds max_open_orders + T - 1, in any interleaving |
| ManagerRuns.BoundIsReached | cpp/src/order_manager.cpp:29-126 | for every limit and every T some run reaches exactly that many |
| ManagerProtocol.GaugeIsExact | cpp/src/order_manager.cpp:51-164 | between any two steps the gauge is the number of NEW, OPEN and PARTIAL orders; accepted + rejected + in flight = started; at rest nothing is NEW and the gauge is open_order_count() |
| ManagerTotals.CountersTally | cpp/src/order_manager.cpp:108-130 | over every run accepted, fill records and filled volume are those of the submits that finished, and canceled the cancels of live orders |
| ManagerTotals.VolumeIsWhatWasFilled | cpp/src/order_manager.cpp:104-109 | when no submit is in flight the reported volume is what the book gave out to all client ids |
| ManagerTotals.BooksAreARun | cpp/src/order_manager.cpp:75 | every interleaving changes the book only by the feed and by one match per submit that entered its order |
| ManagerTotals.ManagedBookStaysUncrossed | cpp/src/order_manager.cpp:75 | so no interleaving of submits, cancels and feed crosses the book |
| ManagerProtocol.SizesRespectLimit | cpp/src/order_manager.cpp:15-27 | no order outside the size limit ever gets an entry; a limit of 2^63 or more admits none |
| OrderLedger.EveryUnitIsAccountedFor | cpp/src/order_manager.cpp:51-154 | in every disciplined run original = filled + remaining + canceled and the status agrees, unless the status update is still owed |
| OrderLedger.TerminalStays | cpp/src/order_manager.cpp:83-154 | in every disciplined run FILLED and CANCELED entries never change again |
| OrderLedger.LedgerStep | cpp/src/order_manager.cpp:51-154 | every allowed step keeps the ledger |
| ManagerRuns.SoloSubmit | cpp/src/order_manager.cpp:11-133 | the steps of an undisturbed submit add up to the sequential submit_order |
| ManagerRuns.CancelWhileOwedBreaks | cpp/src/order_manager.cpp:72-154 | a cancel of an order whose status update is still owed is undone by that update whenever it comes: after any other actions in between the order leaves CANCELED and is unbalanced |
| ManagerRuns.CancelBeforeUpdateBreaks | cpp/src/order_manager.cpp:83-126 | the case of a cancel right between matching and status update |
| ManagerRuns.CancelBeforeMatchBreaks | cpp/src/order_manager.cpp:72-126 | the case of a cancel right between insertion and matching |
| ManagerRuns.SettleBalancedExactlyWhen | cpp/src/order_manager.cpp:83-126 | in every run, disciplined or not, a status update onto an entry that was in balance but for its fills leaves it balanced if and only if that order was untouched and nothing filled, or was open and the fills fit its remainder |
| ManagerRuns.ReuseBalancedExactlyWhen | cpp/src/order_manager.cpp:62-126 | the case of a reused client id whose submit completes undisturbed onto a balanced entry |
| Delimited.SplitSv | cpp/src/udp_receiver.cpp:263-278 | the splitting loop returns the tokens of the input |
| Delimited.SplitIsTheOnlyParse | cpp/src/udp_receiver.cpp:263-278 | those tokens are the only delimiter-free list that joins back to the input |
| Delimited.SplitShape | cpp/src/udp_receiver.cpp:263-278 | no token contains the delimiter and there is one more token than delimiters |
| Delimited.JoinSplit | cpp/src/udp_receiver.cpp:263-278 | joining the tokens gives back every input |
| Numerals.ToLl | cpp/src/udp_receiver.cpp:281-300 | the parser returns the denoted value, rejects, or reports the overflow the original leaves undefined, whichever its left-to-right scan meets first |
| Numerals.ToLlAccepts | cpp/src/udp_receiver.cpp:281-300 | it accepts exactly an optional '-' and one or more digits of magnitude up to 2^63 - 1 |
| Numerals.NumeralForms | cpp/src/udp_receiver.cpp:281-300 | the accepted forms are the non-empty digit strings and those behind a '-', with the value they show |
| Numerals.PrefixBounded | cpp/src/udp_receiver.cpp:293-297 | no intermediate accumulator value exceeds the final one |
| Numerals.PlaceValue | cpp/src/udp_receiver.cpp:293-297 | each digit counts by the power of ten of the digits behind it |
| Numerals.ToLlInvertsPrinting | cpp/src/udp_receiver.cpp:281-300 | it inverts %lld exactly for magnitudes up to 2^63 - 1 |
| Numerals.DecimalParses | cpp/src/udp_receiver.cpp:303-311 | a decimal, with or without a point and an exponent, after spaces and a sign and before other text, is read as its digits scaled by the exponent and to cents |
| Numerals.ScaleIs | cpp/src/udp_receiver.cpp:303-311 | scaling multiplies by a power of ten, or divides by one exactly when nothing is left over |
| Numerals.ExponentFollows | cpp/src/udp_receiver.cpp:303-311 | a mark, an optional sign and digits are an exponent of that value |
| Numerals.PlainFollows | cpp/src/udp_receiver.cpp:303-311 | any other text behind the digits is ignored |
| Numerals.NoDigitsNoPrice | cpp/src/udp_receiver.cpp:303-311 | without a digit behind spaces and sign there is no price |
| Numerals.PriceParses | cpp/src/udp_receiver.cpp:303-311 | reading back a %.2f price recovers the cents |
| Events.ParseDatagram | cpp/src/udp_receiver.cpp:582-640 | five tokens, three integers and a price make an event, with the latency and the truncated symbol; otherwise none |
| Events.ReceiveExactlyWhen | cpp/src/udp_receiver.cpp:582-640 | a datagram is well-formed if and only if it has five tokens of which the first, second and last are integers within 2^63 - 1 and the fourth is a price, and then every field of the event is that token's value |
| Events.SetSymbol | cpp/include/event.h:32-38 | keeps the first 31 bytes up to a NUL among them, and no fewer |
| Events.ReceiveMessage | cpp/src/replay_sender.cpp:150 | receiving a formatted message recovers its payload unless the symbol has a '\|' |
| Events.MessageIsFormat | cpp/src/replay_sender.cpp:150 | a message is the five fields in their order with '\|' between them |
| GatherWrite.EmittedIsPrefix | cpp/src/udp_receiver.cpp:340-386 | for every sequence of kernel answers and after every call, finished or not, with gaps or without, the bytes out are a prefix of the concatenation as long as the cursor says |
| GatherWrite.EveryByteCounts | cpp/src/udp_receiver.cpp:348-384 | each call emits as many of the offered bytes as the kernel takes, where up to 64 buffers are offered, and an interrupted or failed call emits none |
| GatherWrite.WritevAll | cpp/src/udp_receiver.cpp:340-386 | whenever the loop ends at all, it returns exactly the bytes those calls emitted, a prefix of the concatenation; all of it exactly when the result is true, and false only after a failed call |
| GatherWrite.QuietKernelEnds | cpp/src/udp_receiver.cpp:348-384 | the loop ends when only finitely many calls are interrupted or write nothing and no gap of empty buffers lies in the way |
| GatherWrite.BuildWindow | cpp/src/udp_receiver.cpp:350-362 | offers what is left of the current buffer and up to 63 more |
| GatherWrite.MoveCursor | cpp/src/udp_receiver.cpp:370-382 | the idx/offset loop moves the cursor as Advance does |
| GatherWrite.AdvanceLands | cpp/src/udp_receiver.cpp:370-382 | the cursor lands exactly as many bytes further as were written |
| GatherWrite.FinishesExactlyWithoutGap | cpp/src/udp_receiver.cpp:348-384 | some sequence of kernel answers completes the write if and only if no 64 empty buffers precede a non-empty one |
| GatherWrite.NeverFinishes | cpp/src/udp_receiver.cpp:348-384 | in front of such a gap no number of calls completes it |
| Journal.ExtractLl | cpp/src/replay_sender.cpp:21-41 | the digits behind the first occurrence of the key, blanks, colons and an optional sign |
| RoundTrip.LeadingLlReads | cpp/src/replay_sender.cpp:25-41 | behind the key, any blanks, tabs and colons, a sign and digits are read as their number, without digits nothing, and what follows is ignored |
| Journal.ExtractPrice | cpp/src/replay_sender.cpp:43-66 | the run of number characters behind the key, read as a price |
| RoundTrip.NumberTextReads | cpp/src/replay_sender.cpp:47-58 | behind the key and blanks, exactly the run of digits, '.', 'e', 'E', '+' and '-' is collected |
| Journal.ExtractString | cpp/src/replay_sender.cpp:69-81 | the text between the first two quotes behind the key |
| RoundTrip.QuotedTextReads | cpp/src/replay_sender.cpp:72-80 | behind the key exactly the text between the first two quotes is read, and nothing when there are fewer |
| Journal.Replay | cpp/src/replay_sender.cpp:129-173 | one message is offered per parsable line, in order; the counter is the number of those that sendto took |
| Journal.ReplayedExactlyWhen | cpp/src/replay_sender.cpp:130-150 | a line is replayed if and only if all five fields can be extracted from it, and then as the message of those fields |
| Journal.FindIsAfterFirst | cpp/src/replay_sender.cpp:22-24 | std::string::find locates the first occurrence of the key |
| RoundTrip.FindByName | cpp/src/replay_sender.cpp:138-142 | finding a quoted key in a line is finding its name among the line's quote-separated segments |
| RoundTrip.ExtractedLine | cpp/src/replay_sender.cpp:138-147 | a printed line yields its event's payload, or is skipped when the symbol is the key price or size |
| RoundTrip.JsonLineIsFormat | cpp/src/udp_receiver.cpp:644-647 | a printed line is the format string: the eight quoted keys in order, each followed by its own value |
| RoundTrip.EveryFieldReadsBack | cpp/src/udp_receiver.cpp:644-647 | each of the eight fields, receive time, latency and sender included, reads back under its own key |
| RoundTrip.JournalRoundTrip | cpp/src/udp_receiver.cpp:644-647 | replaying and receiving a whole journal, each datagram at its own time and from its own sender, recovers every payload in order when all symbols are clean |
| RoundTrip.RoundTripExactlyWhenClean | cpp/src/replay_sender.cpp:131-150 | for a whole journal it does so if and only if every symbol is clean |
| ReplayBook.ReplayRebuildsBook | cpp/src/replay_sender.cpp:129-173 | replaying a journal into an empty book rebuilds the book, and into the same book changes nothing, whenever the datagrams arrive |
| Receiver.ParseBatch | cpp/src/udp_receiver.cpp:569-670 | the events of the well-formed datagrams and one journal line for each, whose eight fields read back as that event's |
| Receiver.EventsAreStamped | cpp/src/udp_receiver.cpp:575-632 | every event of a batch carries its datagram's receive time and sender, and the latency between the two times |
| Receiver.JournalGrowsInOrder | cpp/src/udp_receiver.cpp:672-677 | at every moment of a batch's journal write, under every kernel, what has reached the journal is a prefix of the batch's text |
| Receiver.JournalWriteEnds | cpp/src/udp_receiver.cpp:672-677 | that write ends under every kernel that is interrupted or writes nothing only finitely often |
| Receiver.Receiver.HandleBatch | cpp/src/udp_receiver.cpp:569-706 | every well-formed datagram is counted once; the queue takes the processed prefix; the journal takes all lines, or a prefix and a write error |
| Receiver.Receiver.PushBatch | cpp/src/udp_receiver.cpp:697-706 | processed grows by what the ring had room for, dropped by the rest, and the ring gains exactly that prefix |
| Pipeline.MoveKeepsInv | cpp/src/udp_receiver.cpp:314-336 | every step of the receiver or the consumer keeps counters, histories and book in step |
| PipelineRuns.ReceivedIsWhatArrived | cpp/src/udp_receiver.cpp:569-670 | the events received in a run are those of all its batches, in order and complete |
| Pipeline.CountedOnceAndInOrder | cpp/src/udp_receiver.cpp:697-706 | at batch boundaries processed + dropped = received and processed = accepted; the applied events are a prefix of the accepted ones |
| PipelineRuns.SoloBatch | cpp/src/udp_receiver.cpp:697-706 | an undisturbed batch leaves the ring of single pushes, counts min(n, free) as processed and the rest as dropped |
| PipelineRuns.PopReachesTheBook | cpp/src/udp_receiver.cpp:318-322 | whatever the receiver does meanwhile, a pop that saw an item hands the oldest live event to the consumer, which feeds it to the book and pops again |
| Pipeline.DrainedMeansApplied | cpp/src/udp_receiver.cpp:317-324 | after the shutdown-and-empty exit everything accepted is applied, and the book is its last-write-wins image |
| PipelineRuns.ShutdownDrains | cpp/src/udp_receiver.cpp:317-324 | after shutdown and while the stop flag is not set, a consumer at its loop head can go on to apply everything accepted and leave by that exit |
| Pipeline.StopAbandonsTheRing | cpp/src/udp_receiver.cpp:314-336 | in every run that leaves by the stop flag the consumer abandons exactly the live ring contents, so nothing is lost if and only if the ring is empty |
| Pipeline.StopIsTakenAtOnce | cpp/src/udp_receiver.cpp:855-857 | that exit is open from every reachable loop head, however full the ring |
| FileTail.ReadLastLines | python/app/main.py:26-69 | for every chunk size the result is the last num_lines non-empty lines of the whole file, when it has a newline |
| FileTail.LastN | python/app/main.py:69 | the last min(n, length) elements |
| FileTail.ChunkTail | python/app/main.py:50-61 | once a chunk holds more than n lines, its last n are the file's last n, so a cut line is never returned |
| FileTail.AgreesExactlyWhen | python/app/main.py:50-69 | the result agrees with the whole file's last lines if and only if the file is empty or has a newline |

## Left out

- ParsePrice: models std::stod on decimal numbers, with fraction and exponent, that are a whole number of cents; a price that is not is refused here, and hexadecimal forms, infinities, NaN, range errors and IEEE rounding are not modelled.
- ToLl: where the original's signed accumulator would overflow, which C++ leaves undefined, the model reports `Overflows` and the datagram or journal line is dropped.
- WritevAll: requires that the loop ends, as every terminating method must; when it ends is QuietKernelEnds and FinishesExactlyWithoutGap, and what holds while it runs is EmittedIsPrefix.
- ReadLastLines: requires num_lines >= 1, which the endpoints guarantee; UTF-8 decoding acts on each line separately and is not modelled.
- RoundTripExactlyWhenClean: speaks of events whose printed line and message fit their buffers, and of datagrams none of which is lost.
- ParseBatch: takes every line whole; a line of 512 bytes or more makes the original copy beyond its snprintf buffer, and that is not modelled.
- Replay: takes every message whole; a message of 256 bytes or more makes the original send beyond its snprintf buffer, and that is not modelled; nor are the pauses between messages.
- HandleBatch: requires that the journal write ends (JournalWriteEnds says when) and takes every line whole, as ParseBatch does; the latency gauge, the log messages and receive-buffer truncation are not modelled, and latency is an unbounded integer.
- CancelOrder: the out-parameter's previous value on failure is not modelled.
- StepRefinesQueue: sequentially consistent steps; the relaxed tail load in pop (cpp/include/spsc_queue.h:88) and weak memory ordering are outside the model.
- The orderbook_consumer loop and the receive loop appear as steps of `Pipeline`, not as methods, because they only make sense interleaved; back-off and sleeping are left out.
- std::map is modelled as its ordered list of levels, std::unordered_map as a map; moved-from objects keep their value.
- Sockets, the gateway's text protocol and file fallback, the HTTP metrics server, signals and thread start-up: input and output.
- The single-datagram receive path, the unused TSQueue, latency statistics, the other FastAPI endpoints, scripts and configuration: outside the modelled pipeline.
