# Contract state on its way to a Go program and back

This project models the parts of the repository in which contract state reaches a Go
program and goes back to the chain, and proves what they promise: the iterators and
watchers of the generated bindings as concurrent machines, the event and call-data
codecs, the Store contract as an event-sourced map, the conversion between wei and
decimal amounts, signature packing, and address text. Library behaviour that the code
relies on (the `event`, `abi`, `bind`, `common` and `hexutil` packages of go-ethereum,
the `shopspring/decimal` package) is modelled from the vendored copies.

| file | contents |
|---|---|
| Positional.dfy | big-endian numerals in any base |
| Subscription.dfy, Iterator.dfy, Watcher.dfy, Agreement.dfy | log channel and error channel; `Next`/`Error`/`Close`; the `Watch*` goroutine; the two compared |
| Hex.dfy, HexText.dfy, Abi.dfy | bytes, hexadecimal text and the numbers it denotes, event logs and `UnpackLog` |
| Producer.dfy | the goroutine behind `Filter*`, which keeps the rules that Subscription.dfy states |
| Topics.dfy, EventFilters.dfy | rule values as topics; queries and what they select |
| LogReading.dfy, TokenReader.dfy, ExchangeReader.dfy | the reading loops for ERC-20 and 0x logs |
| Store.dfy | `setItem`, and replaying its logs through iterator, watcher and reader |
| DecimalText.dfy, Decimals.dfy, Powers.dfy, AmountText.dfy, Printing.dfy, Wei.dfy | integer text, the decimal library and its powers of ten, reading and printing amounts, `ToDecimal` and `ToWei` |
| AddressText.dfy, Signature.dfy, CallData.dfy | address text; `SigRSV` and signature packing; ERC-20 `transfer` call data |

## How the concurrency is modelled

The six iterators and six watchers of the bindings are one machine each, generic over
logs, events and errors. `EventIterators.Step` and `EventWatchers.Step` are the steps of
both sides; a run is any sequence of possible steps, so a lemma about `Run` speaks of
every interleaving, and a `select` with several ready cases is a free choice. The classes
`EventIterator` and `EventWatcher` are the code: their fields are the source's fields, a
ghost trace records the steps, and `Valid()` says that the trace is a run of the machine
that leads to the object's state. What the lemmas prove of runs therefore holds of the
code.

Assumptions about the other side of the channels:

- the log channel is a FIFO buffer of some positive capacity (128 in the source), filled
  from a fixed sequence of logs;
- nothing is sent after the error channel has fired, and it fires at most once;
- a nil error arrives only when every log has been sent, or after the stream was
  cancelled (`Close`, `Unsubscribe`, or the client behind the subscription shut down);
- a blocked `select` is resumed by the producer's (or the caller's) next move.

For `Filter*` the first three are not assumptions: `FilterProducer.FilterRefines` derives
them from the producer loop of `BoundContract.FilterLogs` and from `NewSubscription`, and
`EventFilters.FilterDeliversWanted` is the end-to-end result that needs none of them. For
`Watch*` the other side is the RPC client, which is not part of this model.

## What turned out not to hold

- A watcher's nil result does not mean that its caller quit: shutting down the client ends
  the stream with a nil error too, and logs may be left in the channel or unsent, because the
  outer `select` may take the error case at any time (`EventWatchers.NilWithoutQuit`).
  However the stream ended, everything has been forwarded exactly if the watcher left from
  the outer `select` with an empty channel and nothing left to send
  (`EventWatchers.LeavingChoice`).
- The library computes 10^decimals by halving a decimal exponent with its rounding
  division, so the division precision decides whether the power is right. It is right
  exactly when `decimals` keeps a certain distance from the multiples of powers of two
  (`Powers.TenToIff`), which holds of everything below 10^precision (`Powers.SmallPowers`)
  and so in practice at the default; with one digit, 10^15 comes out as 10^31
  (`Powers.PowerOvershoots`). `Wei.Shift` is the number of places by which the code really
  moves the decimal point, and the theorems about `ToWei` and `ToDecimal` hold for all
  decimals and precisions in terms of it. `Wei.ToWeiRightIff` and `Wei.ToDecimalRightIff`
  say exactly which results are the intended ones, and `Wei.LowPrecisionFails` gives
  conversions that are not.
- wei to decimal to wei is exact exactly when the shift is at most the division precision
  or 10^(shift - precision) divides the amount (`Wei.WeiRoundTrip`; in terms of `decimals`,
  `Wei.WeiRoundTripIff`). With 18 decimals and the library's default precision of 16, one
  wei becomes zero (`Wei.OneWeiIsLost`); `Wei.LostIff` has all amounts that do.
- Text that is no number is worth zero to `ToWei`; an amount with more digits than
  `decimals` leaves the result undefined (`Wei.ToWei`, `Wei.ToWeiDefined`).
- The 0x reader stops at every `LogError` log, because `ParseInt` with base 16 refuses the
  0x prefix; whatever follows is never shown (`ExchangeReader.ErrorHalts`,
  `ExchangeReader.ErrorHidesTheRest`).
- `SigRSV` reads the hexadecimal text of the last byte as decimal; its parts rebuild the
  signature exactly when that byte is at most 9 (`Signature.RebuildsIff`).
- The hand-built and the library-packed call data agree exactly for amounts from 0 to
  2^256 - 1, and for -2^255 (`CallData.SameDataIff`).
- `transaction_raw_read` panics for R of more than 32 bytes, but for S only above 64; from
  33 to 64 bytes S silently replaces the end of R (`Signature.Clobbered`). Both numbers are
  in the buffer exactly when both are below 2^256 (`Signature.WrittenHolds`).
- `IsZeroAddress` accepts text that is no address, such as "0x" and "00"
  (`AddressText.JunkIsZero`); `AddressText.ZeroTextIff` says exactly which text it accepts.
- The node ignores block bounds from 2^63 on, although the options of the bindings take any
  64-bit number (`EventFilters.QueryBlocks`).
- The readers and the generated bindings do not agree on every log; the exact conditions
  are in `TokenReader.AgreesWithBinding` and `ExchangeReader.AgreesWithBinding`.

## Model

| member | source | states |
|---|---|---|
| EventIterators.StepKeepsInv | code/contracts_erc20/erc20.go:575-612 | Every step of producer, `Next` or `Close` keeps the iterator's invariant: delivered events decode a prefix, `fail` and `done` have a cause |
| EventIterators.Conservation | code/contracts_erc20/erc20.go:575-612 | At every moment of every interleaving: delivered logs, the log that failed to unpack, buffered and unsent logs are together the source sequence, in order |
| EventIterators.FailureCause | code/contracts_0xprotocol/Exchange.go:179-216 | `fail` holds x exactly when the first undelivered log was taken and unpacks with x, or the subscription reported x and the iterator saw it |
| EventIterators.ErrorsArrive | code/contracts_erc20/erc20.go:606-611 | A subscription may fail before anything arrives, and `Error` then reports it |
| EventIterators.EndBeforeLog | code/contracts_erc20/erc20.go:580-611 | The select may see the end with a log still in the channel, which the next call delivers |
| EventIterators.FinishedIsFinal | code/contracts_0xprotocol/Exchange.go:179-221 | After a false `Next` nothing that either side does changes anything but the feed: no event, no new error, no log taken |
| EventIterators.Outcome | code/contracts_0xprotocol/Exchange.go:477-514 | The ways an iteration ends and which logs are then left; without error and `Close` the events are exactly the decodings of all logs |
| EventIterators.Delivers | code/contracts/Store.go:281-318 | When all logs unpack, a prefix has been delivered, nothing is rejected, and a clean end has delivered as many events as there are logs |
| EventIterators.Termination | code/contracts_erc20/erc20.go:575-612 | Over n logs at most a linear number of steps other than cancelling can happen, `done` self-calls included |
| EventIterators.CanFinish | code/contracts_erc20/erc20.go:575-612 | No deadlock: every run extends to a finished one, and an undisturbed one to a run that has delivered everything |
| EventIterators.EventIterator.constructor | code/contracts_erc20/erc20.go:637-653 | `Filter*` returns an iterator over the query's logs with nothing delivered |
| EventIterators.EventIterator.Receive | code/contracts_erc20/erc20.go:583-592 | Unpacks the oldest buffered log; `Raw` and the result true only without error, `fail` otherwise |
| EventIterators.EventIterator.Next | code/contracts_erc20/erc20.go:575-612 | True: exactly one more event was delivered and `Event` is it. False: nothing delivered, and the iterator is finished; a finished iterator does not change |
| EventIterators.EventIterator.Error | code/contracts_erc20/erc20.go:615-617 | Returns the recorded failure |
| EventIterators.EventIterator.Close | code/contracts_erc20/erc20.go:621-624 | Cancels the subscription and waits for the error channel; fields and history of the iterator stay |
| EventIterators.EventIterator.Drain | code/contracts_0xprotocol/Exchange.go:477-514 | A loop over `Next` ends having seen the decodings of all logs in order, or the first error |
| EventWatchers.StepKeepsInv | code/contracts_erc20/erc20.go:673-698 | Every step of producer, caller or goroutine keeps the watcher's invariant |
| EventWatchers.Safety | code/contracts_erc20/erc20.go:673-698 | In every run the sink has the decodings of a prefix of the logs in order; at most one taken log has not reached it; the rest is still in the channel or unsent |
| EventWatchers.ExitCause | code/contracts/Store.go:360-385 | The result is the error of the first unforwarded log, or what the subscription reported, or nil on quit; a nil result has just these two causes |
| EventWatchers.NilWithoutQuit | code/contracts/Store.go:360-385 | A run in which the client is shut down and the watcher exits with nil, without quit, leaving a log in the channel |
| EventWatchers.ShutdownLosesLogs | code/contracts/Store.go:360-385 | A run in which the client is shut down and the watcher exits with nil although nothing was ever sent |
| EventWatchers.InFlightIsLost | code/contracts/Store.go:369-377 | Runs in which the inner select drops the event in flight, to quit and to a subscription error |
| EventWatchers.QuitLeavesLog | code/contracts/Store.go:360-385 | A run in which quit wins the outer select and leaves a log in the channel |
| EventWatchers.LeavingChoice | code/contracts/Store.go:360-385 | However the stream ended, cancelled or not: a watcher that leaves by an error or quit case has forwarded everything exactly if it left from the outer select, with an empty channel and nothing left to send |
| EventWatchers.UncancelledChoice | code/contracts/Store.go:360-385 | For a stream that ended with nil and was not cancelled, the empty channel suffices |
| EventWatchers.UnsubscribesOnce | code/contracts/Store.go:360-385 | A run that exits unsubscribes exactly once, any other never |
| EventWatchers.LeavingIsFinal | code/contracts/Store.go:360-385 | After the loop is left nothing is sent and neither result nor cause changes; so the unsubscribe follows the last send |
| EventWatchers.Termination | code/contracts_erc20/erc20.go:673-698 | Over n logs at most 3n + 3 steps besides quit and cancel signals |
| EventWatchers.CanFinish | code/contracts_erc20/erc20.go:673-698 | Every run extends to an exit, and an undisturbed one to an exit after forwarding every log |
| EventWatchers.EventWatcher.Take | code/contracts_0xprotocol/Exchange.go:599-606 | Takes the oldest log; an unpack error becomes the result, otherwise the event is offered |
| EventWatchers.EventWatcher.Offer | code/contracts_0xprotocol/Exchange.go:608-614 | The inner select: the event goes to the sink, or the loop is left with the error or nil |
| EventWatchers.EventWatcher.Loop | code/contracts_0xprotocol/Exchange.go:597-619 | The loop is left only with the result it decided on; the sink only grows |
| EventWatchers.EventWatcher.Watch | code/contracts_0xprotocol/Exchange.go:595-620 | Exits with its result after one unsubscribe, having forwarded the decodings of a prefix |
| FilterWatchAgreement.AlwaysComparable | code/contracts_0xprotocol/Exchange.go:595-620 | At any two moments of any two runs, the iterator's and the watcher's events are one a prefix of the other |
| FilterWatchAgreement.WatchAgainstFilter | code/contracts_0xprotocol/Exchange.go:595-620 | Against a completed filter, a watcher's sink is a prefix, and equal exactly when nothing is in flight, buffered or unsent |
| FilterWatchAgreement.StoppedRunsExtend | code/contracts_0xprotocol/Exchange.go:477-514 | Wherever one of the two stopped, the other has a complete run that its events are a prefix of |
| FilterProducer.Refines | vendor/github.com/ethereum/go-ethereum/accounts/abi/bind/base.go:434-444 | Every step of the producer goroutine or of `Unsubscribe` is a permitted step of the feed, or invisible |
| FilterProducer.FilterRefines | vendor/github.com/ethereum/go-ethereum/event/subscription.go:49-88 | Every run of producer, subscription and iterator together is a run of the iterator machine |
| FilterProducer.FilterOutcome | vendor/github.com/ethereum/go-ethereum/accounts/abi/bind/base.go:404-449 | With nothing assumed of the producer: only unpacking can fail, and a clean end without `Close` has delivered everything |
| FilterProducer.FilterTermination | code/contracts_erc20/erc20.go:575-612 | Producer, subscription and iterator over n logs make at most 2n + 3 steps besides calls of `Unsubscribe` |
| FilterProducer.FilterCanFinish | code/contracts_erc20/erc20.go:575-612 | No deadlock: every run of a filter extends to a finished one, and an undisturbed one to a run that has delivered everything |
| EventFilters.FilterLogs | vendor/github.com/ethereum/go-ethereum/eth/filters/filter.go:286-318 | The node's loop keeps exactly the logs of the requested blocks and contracts whose topics match every non-empty list, in order |
| EventFilters.Includes | vendor/github.com/ethereum/go-ethereum/eth/filters/filter.go:275-283 | Finds an address exactly when it is in the list |
| EventFilters.BlockBounds | vendor/github.com/ethereum/go-ethereum/eth/filters/filter.go:290-295 | Within 64 signed bits a bound from zero on is one, and a negative bound is none |
| EventFilters.SelectIs | vendor/github.com/ethereum/go-ethereum/eth/filters/filter.go:286-318 | What is kept, condition by condition |
| EventFilters.SelectConcat | vendor/github.com/ethereum/go-ethereum/eth/filters/filter.go:286-318 | Selecting goes log by log, so the order stays |
| EventFilters.QueryBlocks | vendor/github.com/ethereum/go-ethereum/accounts/abi/bind/base.go:420-427 | A query lets through the blocks from the requested start to the requested end, bounds from 2^63 on being ignored |
| EventFilters.OptionBlocks | vendor/github.com/ethereum/go-ethereum/accounts/abi/bind/base.go:404-476 | Which blocks the options of a filter or a watcher let through, missing options included |
| FilterTopics.MakeTopics | vendor/github.com/ethereum/go-ethereum/accounts/abi/topics.go:31-99 | Every rule value gives its topic, list by list; the first one that gives none decides the error or panic |
| FilterTopics.TopicHolds | vendor/github.com/ethereum/go-ethereum/accounts/abi/topics.go:31-99 | What the topic of each type of value holds, and when there is none |
| FilterTopics.GenIntType | vendor/github.com/ethereum/go-ethereum/accounts/abi/topics.go:101-113 | Sign bytes, and over them the low bytes of the value |
| FilterTopics.IntTopicValue | vendor/github.com/ethereum/go-ethereum/accounts/abi/topics.go:101-113 | The topic of a signed integer is its two's complement in 32 bytes |
| EventFilters.BindingTopics | vendor/github.com/ethereum/go-ethereum/accounts/abi/bind/base.go:409-415 | On the rules of the bindings it never fails and makes the event's hash followed by the encoded lists |
| EventFilters.TokenQuery | code/contracts_erc20/erc20.go:637-653 | The rules appended from the two address lists give the query of those lists |
| EventFilters.ExchangeQuery | code/contracts_0xprotocol/Exchange.go:547-570 | The same for the three lists of fills and cancellations |
| EventFilters.TopicIsWord | vendor/github.com/ethereum/go-ethereum/accounts/abi/topics.go:35-90 | The topic a query is made of is the topic the contract writes for the value |
| EventFilters.SelectsRecords | vendor/github.com/ethereum/go-ethereum/accounts/abi/bind/base.go:404-449 | For every event signature, record and rules: its log is selected exactly when each constrained field is listed |
| EventFilters.TokenSelected | code/contracts_erc20/erc20.go:637-653 | A transfer or approval is selected exactly when both its addresses are in the caller's lists (empty lists allow all) |
| EventFilters.FillSelected | code/contracts_0xprotocol/Exchange.go:547-570 | The same for fills: maker, fee recipient and tokens |
| EventFilters.CancelSelected | code/contracts_0xprotocol/Exchange.go:246-269 | The same for cancellations |
| EventFilters.FilteredIteration | code/contracts_erc20/erc20.go:575-653 | End to end over query, codec and iterator: from any stream of mixed events the iterator delivers the wanted records only, in order, and all of them when it ends cleanly |
| EventFilters.FilterDeliversWanted | code/contracts_erc20/erc20.go:575-653 | The same with the producer loop in place of assumptions: unless `Close` is called, a finished filter has no error and has delivered exactly the wanted records |
| EventFilters.WatchedStream | code/contracts_erc20/erc20.go:658-699 | In every run a watcher's sink has a prefix of the wanted records, and all of them exactly when nothing is in flight, buffered or unsent |
| Store.StoreContract.SetItem | code/contracts/Store.sol:13-16 | Overwrites one key, leaves the others, appends one `ItemSet` log; the mapping stays the fold of the history |
| Store.ItemsAfterIs | code/contracts/Store.sol:13-16 | After any history a key has the value of the last call that set it |
| Store.LookupIs | code/contracts/Store.sol:7 | The getter gives the value of the last call for the key, and the zero word without one |
| Store.ItemLayout | code/contracts/Store.sol:7-15 | The log of a call: the event's hash as topic, key and value as data |
| Store.ItemRoundTrip | code/contracts/Store.go:281-318 | An emitted `ItemSet` log unpacks to its key and value |
| Store.IteratorReplay | code/contracts/Store.go:281-318 | For every history and interleaving, replaying what was delivered gives the mapping after a prefix of the history, and after a clean end the current mapping |
| Store.WatcherReplay | code/contracts/Store.go:360-385 | The same for a watcher's sink |
| Store.Mirror | code/contracts/Store.go:342-349 | A client that filters, loops over `Next` and applies each event ends with the contract's mapping |
| Store.ReadingShowsHistory | code/event_read.go:44-67 | The reading loop over all logs shows the history of calls |
| Store.ReadItemOutcome | code/event_read.go:44-67 | For every log: fatal, out of range or shown, by data length and topic count, and what is shown |
| Abi.LogRoundTrip | vendor/github.com/ethereum/go-ethereum/accounts/abi/bind/base.go:483-499 | For every event signature and record, `UnpackLog` of the emitted log gives the record |
| Abi.LogLayout | code/contracts_0xprotocol/Exchange.go:546-547 | Where an emitted log has its arguments, for every event signature |
| Abi.WordHolds | vendor/github.com/ethereum/go-ethereum/accounts/abi/topics.go:115-173 | What a word holds: the address, the number or the bytes |
| Abi.UnpackLogAccepts | vendor/github.com/ethereum/go-ethereum/accounts/abi/bind/base.go:483-499 | Which logs unpack without error, both directions |
| Abi.UnpackLogFails | vendor/github.com/ethereum/go-ethereum/accounts/abi/bind/base.go:483-499 | Which error it is otherwise, and what the event struct holds then |
| Abi.UnpackDataFails | vendor/github.com/ethereum/go-ethereum/accounts/abi/argument.go:79-212 | When unpacking the data alone fails, and with which error |
| Abi.LogReencodes | vendor/github.com/ethereum/go-ethereum/accounts/abi/topics.go:115-173 | A canonical log unpacks, and encoding the result gives the log back |
| Abi.UnpackLogExclusive | vendor/github.com/ethereum/go-ethereum/accounts/abi/bind/base.go:483-487 | No log unpacks as two events with different hashes |
| LogReading.ReadsInOrder | code/event_read_erc20.go:64-105 | A loop over logs shows the known events in order and skips the others |
| LogReading.ReadRecordOutcome | code/event_read_0xprotocol.go:91-139 | For every signature: when reading a log is fatal, out of range or shown, by data length and topic count |
| LogReading.ReadRecordIff | code/event_read_0xprotocol.go:91-139 | For every signature: what is read is what the binding unpacks from the topics that are read, both directions |
| TokenReader.ReadLogs | code/event_read_erc20.go:64-105 | The loop shows what its step says of each log, and stops at the first fatal one |
| TokenReader.ReadLog | code/event_read_erc20.go:68-102 | Which logs are skipped, fatal, out of range or shown, by first topic, data length and topic count; what is shown is what the binding makes of the first three topics |
| TokenReader.ShownIff | code/event_read_erc20.go:68-102 | For every log: an event is shown exactly when there is data and the binding unpacks the first three topics to it |
| TokenReader.AgreesWithBinding | code/event_read_erc20.go:68-102 | For every log, exactly when reader and generated binding agree on it |
| TokenReader.EventRoundTrip | code/event_read_erc20.go:68-102 | Every transfer or approval is read back from its log, never as the other kind |
| TokenReader.TokenLayout | code/contracts_erc20/erc20.go:634-637 | The logs of a transfer and of an approval, word by word |
| TokenReader.ListRoundTrip | code/event_read_erc20.go:64-105 | Events anywhere among other logs are read back one for one, in order |
| ExchangeReader.HashesDistinct | code/event_read_0xprotocol.go:79-85 | The three event hashes differ |
| ExchangeReader.ShowFill | code/event_read_0xprotocol.go:91-116 | Fatal, out of range or shown by data length and topic count; what is shown is what the binding makes of topics 1 to 3 and the data |
| ExchangeReader.ShowCancel | code/event_read_0xprotocol.go:117-139 | The same for a cancellation |
| ExchangeReader.ReadLogs | code/event_read_0xprotocol.go:87-159 | The loop shows what its step says of each log, and stops at the first fatal one |
| ExchangeReader.ShownIff | code/event_read_0xprotocol.go:91-152 | For every log: an event is shown exactly when it is a fill or cancellation, there is data and the binding unpacks the first four topics to it |
| ExchangeReader.AgreesWithBinding | code/event_read_0xprotocol.go:91-152 | For every log, exactly when reader and generated bindings agree on it |
| ExchangeReader.EventRoundTrip | code/event_read_0xprotocol.go:91-139 | Fills and cancellations are read back from their logs, never as the other kind |
| ExchangeReader.FillLayout | code/contracts_0xprotocol/Exchange.go:544-547 | The log of a fill, word by word |
| ExchangeReader.CancelLayout | code/contracts_0xprotocol/Exchange.go:243-246 | The log of a cancellation, word by word |
| ExchangeReader.StepOutcome | code/event_read_0xprotocol.go:87-159 | For every log: skipped, fatal, out of range or shown, by first topic, data length and topic count |
| ExchangeReader.ListRoundTrip | code/event_read_0xprotocol.go:87-159 | The same for whole log lists with other logs in between |
| ExchangeReader.ErrorHalts | code/event_read_0xprotocol.go:141-152 | Every `LogError` log ends the program |
| ExchangeReader.ErrorHidesTheRest | code/event_read_0xprotocol.go:87-159 | What precedes the first `LogError` log is shown, nothing behind it, and how the program stops |
| Decimals.CmpAtScale | vendor/github.com/shopspring/decimal/decimal.go:566-579 | Comparison does not depend on the scale at which it is made |
| Decimals.AddIsSum | vendor/github.com/shopspring/decimal/decimal.go:392-402 | Addition gives the sum of the numbers, at every scale |
| Decimals.MulIsProduct | vendor/github.com/shopspring/decimal/decimal.go:428-444 | Multiplication gives the product of the numbers, at every pair of scales |
| DecimalText.ParseIntIff | code/util/util.go:60-67 | Integer parsing, for every text: exactly the digits behind an optional sign, and nothing else |
| Decimals.ParseOfPrint | vendor/github.com/shopspring/decimal/decimal.go:1043-1086 | What parsing the printed text as an integer gives, for any coefficient and exponent |
| Decimals.ParseOfPrintIff | vendor/github.com/shopspring/decimal/decimal.go:1043-1086 | Print then parse gives n exactly when the number is n |
| Printing.PrintNatShort | vendor/github.com/shopspring/decimal/decimal.go:1043-1086 | A natural number is printed in as few digits as it has |
| Printing.PrintShape | vendor/github.com/shopspring/decimal/decimal.go:1043-1086 | The printed text has no superfluous zero at either end, a point only before a digit and a sign only for negative numbers, and denotes the number |
| Printing.PrintIff | vendor/github.com/shopspring/decimal/decimal.go:1043-1086 | Two decimals are printed alike exactly when they are the same number |
| Powers.HalfIs | vendor/github.com/shopspring/decimal/decimal.go:514-550 | Dividing an exponent by two rounds it up to the next unit of the precision |
| Powers.PowTenByUnits | vendor/github.com/shopspring/decimal/decimal.go:545-558 | The squaring recursion over decimals yields one and a recursion over whole units as exponent |
| Powers.TenTo | vendor/github.com/shopspring/decimal/decimal.go:545-558 | The power of ten has coefficient 1 and is never too small |
| Powers.TenToIff | vendor/github.com/shopspring/decimal/decimal.go:545-558 | For all exponents and precisions: the power is right exactly when the exponent is clear of all multiples of powers of two |
| Powers.SmallPowers | vendor/github.com/shopspring/decimal/decimal.go:545-558 | It is right for all exponents below 10^precision |
| Powers.PowerOvershoots | vendor/github.com/shopspring/decimal/decimal.go:545-558 | A concrete power that comes out wrong |
| AmountText.IntegerText | vendor/github.com/shopspring/decimal/decimal.go:105-154 | The text of an integer reads as that integer with exponent zero |
| AmountText.StringRoundTrip | vendor/github.com/shopspring/decimal/decimal.go:105-154 | Reading printed text gives the same number |
| AmountText.WrittenOutReads | vendor/github.com/shopspring/decimal/decimal.go:105-154 | Any number written out with a point, with zeros at either end or not, reads as the number it denotes; it is refused exactly without a digit before the point and a nonzero one behind it |
| AmountText.WrittenOutScientific | vendor/github.com/shopspring/decimal/decimal.go:105-154 | The same with an exponent behind it |
| AmountText.BehindExponent | vendor/github.com/shopspring/decimal/decimal.go:105-122 | The first e or E ends the mantissa, and behind it there must be an integer of 32 bits |
| AmountText.AroundPoint | vendor/github.com/shopspring/decimal/decimal.go:124-149 | Around one point the digits are joined, a second point is an error, and the exponent must fit |
| AmountText.ScientificNotation | vendor/github.com/shopspring/decimal/decimal.go:105-154 | An exponent behind the text moves the decimal point by that much |
| Wei.ToDecimal | code/util/util.go:59-73 | For each kind of argument: an integer, or text that is one, gives the nearest number with `precision` digits to n * 10^-shift, ties away from zero; other text is undefined, another type gives zero |
| Wei.ToWei | code/util/util.go:76-98 | For each kind of argument: the result is v exactly when the amount is v * 10^-shift; text that is no number, or another type, gives zero |
| Wei.ShiftIff | code/util/util.go:91-92 | The shift is `decimals` exactly when the exponent is clear of all multiples of powers of two |
| Wei.ToWeiExact | code/util/util.go:91-97 | The result is v exactly when the amount is v * 10^-shift, whatever represents it |
| Wei.ToWeiRightIff | code/util/util.go:91-97 | For every amount: the result exists and is amount * 10^decimals exactly when the amount has at most `decimals` digits, and is zero or the shift is right |
| Wei.ToWeiOfInteger | code/util/util.go:76-98 | An int64 argument up to 2^53 always has a result, the integer moved by the shift |
| Wei.ToWeiWhenClear | code/util/util.go:91-97 | With a right shift: the result is v exactly when the amount is v * 10^-decimals, defined exactly for at most `decimals` digits |
| Wei.ToWeiDefined | code/util/util.go:91-97 | A result exists exactly for amounts with at most as many fractional digits as the shift |
| Wei.ToWeiAdds | code/util/util.go:91-97 | The wei of a sum is the sum of the wei |
| Wei.ToWeiOrders | code/util/util.go:91-97 | Order and equality of amounts are order and equality of their wei |
| Wei.ToWeiOfEqual | code/util/util.go:91-97 | Amounts that are the same number give the same result |
| Wei.ToWeiOfText | code/util/util.go:76-97 | A decimal and its printed text are worth the same wei |
| Wei.DecimalOfIs | code/util/util.go:68-72 | For all decimals and precisions the decimal is the nearest multiple of 10^-precision to wei * 10^-shift, ties away from zero |
| Wei.ToDecimalRightIff | code/util/util.go:68-72 | It is the rounded value of wei * 10^-decimals exactly when the shift is right or that value is zero |
| Wei.RoundAwayNearest | vendor/github.com/shopspring/decimal/decimal.go:514-536 | The rounding step picks a nearest integer, and the one away from zero on ties |
| Wei.DivRoundNearest | vendor/github.com/shopspring/decimal/decimal.go:470-536 | Rounding division of any decimal by any positive one gives the nearest number with that many digits, ties away from zero |
| Wei.WeiRoundTrip | code/util/util.go:59-98 | wei to decimal to wei, for all decimals and precisions: always defined, exact precisely when no rounding is needed, else off by at most half of 10^(shift - precision) |
| Wei.WeiRoundTripIff | code/util/util.go:59-98 | With a right shift the same in terms of `decimals` |
| Wei.WeiTextRoundTrip | code/util/util.go:59-98 | The same with the decimal printed and read in between |
| Wei.LostIff | code/util/util.go:59-98 | Exactly zero and the amounts below half of 10^(shift - precision) come back as zero |
| Wei.OneWeiIsLost | code/util/util.go:59-98 | The concrete case of 18 decimals and precision 16 |
| Wei.LowPrecisionFails | code/util/util.go:59-98 | Conversions that go wrong at precision 1 and 15 decimals, in both directions |
| Wei.DecimalRoundTrip | code/util/util.go:68-95 | decimal to wei to decimal gives the number back exactly for amounts with at most `precision` digits |
| Wei.ToDecimalMonotone | code/util/util.go:68-72 | More wei never give a smaller decimal, negative values and ties included |
| Signature.Copy | code/transaction_raw_read.go:27-35 | Overwrites one slice of a buffer and nothing else |
| Signature.Pack | code/transaction_raw_read.go:27-35 | Panics exactly when R needs more than 32 bytes or S more than 64; otherwise R and S end at bytes 32 and 64, S over R, then V; below 2^256 they are side by side |
| Signature.WrittenHolds | code/transaction_raw_read.go:27-35 | The buffer is written and holds both numbers exactly when both are below 2^256 |
| Signature.Clobbered | code/transaction_raw_read.go:32-34 | For S of 33 to 64 bytes: what the buffer holds, and when R survives all the same |
| Signature.SigRSV | code/util/util.go:107-128 | Panics exactly below 65 bytes; otherwise the two 32-byte parts, and 27 plus the last byte misread as decimal |
| Signature.SplitParts | code/util/util.go:116-127 | The first two 32-byte parts, and 27 plus the last byte's hexadecimal text read as decimal |
| Signature.TextSplitsAlike | code/util/util.go:108-114 | A signature and its 0x text split alike |
| Signature.TextArgument | code/util/util.go:108-114 | For every text: nothing without 0x, otherwise the bytes of the whole digit pairs at its start |
| Signature.RebuildsIff | code/util/util.go:107-128 | R, S and V - 27 rebuild a 65-byte signature exactly when its last byte is at most 9 |
| Signature.PackThenSplit | code/transaction_raw_read.go:27-35 | Splitting what was packed gives back r, s and the recovery id, from bytes and from text |
| CallData.BuildTransferData | code/transfer_tokens.go:57-69 | For amounts below 2^256 the appended bytes are 68 and decode to address and amount; for which integers they are the ABI-packed data |
| CallData.TransferRoundTrip | code/transfer_tokens.go:57-69 | For amounts below 2^256 the data has 68 bytes and decodes to the address and amount |
| CallData.TransferLayout | code/transfer_tokens.go:57-69 | Where the data has the selector, the address and the amount |
| CallData.TransferReencodes | code/transfer_tokens.go:57-69 | Data that decodes is the data built from what it decodes to |
| CallData.TransferInjective | code/transfer_tokens.go:57-69 | Different addresses or amounts give different data |
| CallData.SameDataIff | code/helper/helper.go:186-199 | For which integers the hand-built and the ABI-packed data are equal, both directions |
| AddressText.PrintedIsValid | code/util/util.go:29-39 | Every address is valid, and so is its text, whatever the letter case |
| AddressText.ParsePrint | code/util/util.go:29-56 | Accepted text parses and prints back to itself up to letter case |
| AddressText.PrintParse | code/util/util.go:29-56 | Printing and parsing gives the address back |
| HexText.FromHexIs | vendor/github.com/ethereum/go-ethereum/common/bytes.go:26-34 | For every text, even or odd, prefixed or not: how many bytes are read, and the number they denote |
| HexText.HexToAddressIs | vendor/github.com/ethereum/go-ethereum/common/types.go:203-231 | For every text the address denotes the number of the digits read, modulo 2^160 |
| HexText.OddDigit | vendor/github.com/ethereum/go-ethereum/common/bytes.go:32-34 | The first digit of an odd text is a byte of its own |
| AddressText.ZeroTextIff | code/util/util.go:42-56 | For every text: it counts as zero exactly when the last 40 of the digits that are read are zero |
| AddressText.ZeroText | code/util/util.go:42-56 | Accepted text is zero exactly when all 40 digits are, in agreement with its bytes |
| AddressText.ZeroPrinted | code/util/util.go:42-56 | Only the address of 20 zero bytes is zero, in bytes and in print |
| AddressText.JunkIsZero | code/util/util.go:42-56 | Text of which no digit is read, and zeros of fewer than 40 digits, count as zero although they are no addresses |
| AddressText.OtherIsNeither | code/util/util.go:29-53 | An argument of another type is neither valid nor zero |

## Left out

- `IntegerToBinary` and the numbering loop of code/operate_file.go, `CalcGasCost`, `GetGasPrice`: single expressions and a counter.
- V in code/transaction_raw_read.go:30: it does not follow EIP-155; `Signature.Pack` takes the byte as given.
- Reading `LogError` successfully: code/event_read_0xprotocol.go:144 never gets that far. The iterator and watcher of `LogError` are covered by the generic machines.
- Wei.ToWei: takes the decimal that `NewFromFloat` makes of a float64 or int64 argument as given, because rounding to and from floating point is not modelled; negative `decimals` are left out.
- A division precision of zero or less: at zero `Pow` does not return for any exponent from 1 on, because half of 1 rounds to 1.
- Exponents beyond 32 bits, on which the decimal library panics, and `decimals` beyond 2^53, which the conversion to float64 rounds.
- Nil pointers: a nil `*big.Int` field counts as zero, nil `*decimal.Decimal` and nil `*big.Int` arguments are not modelled.
- `BoundContract.UnpackLog` of a log without topics panics in the source and is an error (`NoTopics`) here.
- Keccak, ECDSA, and which letters EIP-55 capitalises: hashes are constants or distinct parameters, the casing is arbitrary.
- The other methods of the bindings (`TotalSupply`, `Allowance`, sessions, transactors), dialling, RPC, subscription set-up, gas estimation, keystores, Swarm, Whisper, RLP and the simulated backend: calls into libraries.
- `erc20.sol` and `Exchange.sol` only declare interfaces, so there are no transfers or fills to verify.
