# A verified model of flip

flip is a set of daemons that watch a market. A crawler polls a ticker over HTTP and
publishes what is new on a message bus, a collector stores what it receives, and a root
daemon starts both and answers their requests. This project models the parts whose
behaviour is not that of a library, and proves what they promise and exactly when they
keep it.

| module | models |
|---|---|
| `Text`, `Printf`, `Common` | C strings, `strncmp`, decimal notation, `printf` formats, error codes |
| `Json` | RFC 8259: derivation trees, their text, and a recogniser for the same language |
| `Message`, `Msg` | the message printer, a decoder for it, and the C objects it fills |
| `Bus`, `Request` | framing on the bus, and a worker's request on its way to the root |
| `Endpoint` | binding or connecting to a URL |
| `Numbers`, `Tokens` | `strtol`, `strtold`, and reading keys and numbers off a token |
| `Ticker`, `BtceTicker` | the ticker extractor: what it computes, and its loop |
| `TickerTree`, `Companions` | its effect on JSON texts, and what members around the nine keys may hold |
| `Freshness`, `Pipeline`, `Interleaving` | the publish filter, the two loops, and all of their interleavings over a lossy bus |
| `PidFile`, `Lifecycle` | PID files with any number of processes, and the calls of one process |
| `Launch` | starting a worker and polling for its messages |

## How to read it

Where the program changes an object, a buffer or a file system, there is a class and a
method with the program's statements. The method's contract ties it to a function, and the
properties are lemmas about that function. Key names, formats, limits and error codes are
written out in the lemmas that state them, so that they can be compared with the source.

- **Messages.** The JSON in question is that of sections 2 to 7 of RFC 8259, given as a
  grammar and as a recogniser that decides it (`Json.RecogniserDecidesGrammar`). Names and
  data are pasted in raw. `Message.SchemaExactly` and `Message.DecodableExactly` say for
  which names and data the text means what the schema says and for which the record can be
  recovered, in both directions. That the text is JSON at all is a weaker fact, as
  `Message.SplicedDataStillParse` shows.
- **Ticker.** The scan overwrites nine fields in place and reads numbers without regard to
  the token's end. It is shown to leave in each field the value after the last token of
  that field's own key (`Ticker.ScanFillsNine`), and to read every JSON number as what its
  digits and exponent denote (`Tokens.NumberTokenIsRead`). On
  ticker texts whose values are quiet, which means that no string in them is one of the
  nine keys, it is independent of order, spacing and unknown members. Quiet is the exact
  limit: the scan looks at values and nested names too, so a value that is not quiet
  changes some parse (`Companions.QuietExactly`). In
  `{"p":{"high":5,"note":"high","x":1}}` the value `"high"` counts as the key, and `high`
  ends at 0 (`Companions.LoudText`). The fields live in memory that nothing clears, so a
  text that lacks a name leaves what was there. `Ticker.Outcome` has a case `Overrun` for
  a read past the token array, and `TickerTree.OverrunExactly` says when that happens.
- **Pipeline.** Each loop on its own is given exactly: when it runs through its budget, and
  what it has sent or stored by then (`Pipeline.CrawlExactly`, `Pipeline.CollectExactly`).
  Together, a run is any list of turns and losses. The rows follow the polls exactly
  when no publishable text lacks a key (`Interleaving.RowsKeptExactly`), and their times
  increase exactly when no text that parses lacks `updated`
  (`Interleaving.OrderKeptExactly`). Neither holds for all texts: `{"p":{"high":1}}` breaks
  both (`Interleaving.OrderIsNotAlwaysKept`, `Interleaving.RowsAreNotAlwaysPolls`).
- **PID files.** Every system call is one step and steps of all processes interleave. The
  invariant behind mutual exclusion is kept by exactly the steps that do not race between
  check and open and do not use a path that moves with the change to `/tmp`
  (`PidFile.StepOkExactly`). If check and open are one step, the safe sets of paths are
  those of absolute ones (`PidFile.AbsolutePathsExactly`). As they are two, every path has
  a run from the start that ends with two daemons on one file
  (`PidFile.NoPathIsSafeInAnyOrder`).

Choices that the model makes:

- A character of a Dafny string stands for one `char`. `int` has 32 bits and `long` 64.
- The tokeniser is an arbitrary function. `Tokens.AgreesWithGrammar` is what is assumed of
  it: on a JSON object it returns one token for every value and name, in the order of the
  text, strings without their quotes. `Tokens.TokenizerExists` shows that this can be met.
- A double is the exact number that the text denotes, as mantissa, base and exponent.
- The bus is a first-in first-out queue. What arrives when, what is lost, whether the
  library takes a message, the answers of the exchange, and the outcome of each system
  call are parameters.
- Poll budgets (10, 20 and 30 in the program) are arbitrary.
- The crawler's and the collector's loop come after a jump to the end of `main`
  (src/app/crawler.c:72, src/app/collector.c:52). They are modelled as if reached.

Where the code does not do what its names or comments suggest, the code is followed:

- `create_message` takes a message type and never stores it
  (`Request.TypeArrivesOnlyFromCrawlers`).
- `sql_insert_tick` takes `SQLITE_DONE` from `sqlite3_finalize` for success. The row is in
  the table by then. `Interleaving` allows every outcome of an insertion, and
  `Interleaving.OneRowAtMost` says what follows if success is never reported.
- `write_pid` ignores the result of `fflush`, so a daemon can serve with an empty PID file
  (`recorded` in `PidFile.Process`).

## Model

| member | source | states |
|---|---|---|
| `Message.DecodeInvertsSerialize` | src/common/msg/msg.c:50-71 | for quote-free names, reading the printed text by the schema gives back all five parts of the record, with NULL data as `{}` |
| `Message.SerializeInvertsDecode` | src/common/msg/msg.c:50-71 | every text that decodes is the print of what it decodes to |
| `Message.DecodableExactly` | src/common/msg/msg.c:67-70 | the record is recovered if and only if neither name has a quote |
| `Message.DecoderAcceptsExactlyOutputs` | src/common/msg/msg.c:50-71 | the decoder accepts exactly the prints of messages with quote-free names |
| `Message.SerializeInjective` | src/common/msg/msg.c:67-70 | with quote-free names two messages print alike if and only if they are alike up to NULL data |
| `Message.SerializeIsPrintf` | src/common/msg/msg.c:50-70 | the text is what `printf` makes of the schema in the source and the five arguments, with the time as an unsigned 64-bit number |
| `Message.QuotedNamesCollide` | src/common/msg/msg.c:67-70 | with a quote in a name, two different messages have one text |
| `Message.PeelInvertsNest` | src/common/msg/msg.c:67-70 | for quote-free names, decoding n messages nested in one another gives back the n envelopes and the innermost data |
| `Message.JsonInJsonOut` | src/common/msg/msg.c:50-71 | JSON names and JSON data print as a JSON object of exactly the five members in order, and the value of the data is kept |
| `Message.SchemaNeedsJson` | src/common/msg/msg.c:50-71 | the output is that object only if the names are JSON string bodies and the data a JSON text |
| `Message.SchemaExactly` | src/common/msg/msg.c:50-71 | both directions, with NULL data allowed |
| `Message.SplicedDataStillParse` | src/common/msg/msg.c:67-70 | data that are not JSON can turn the output into a different JSON object |
| `Message.NestIsJson` | src/common/msg/msg.c:50-71 | outputs used as data print as JSON of the schema again, to any depth |
| `Message.PlainIsBody` | src/common/msg/msg.c:68 | a name without quote, backslash and control characters is a JSON string body |
| `Msg.CreateMessage` | src/common/msg/msg.c:9-41 | the new record has the names, the time and the data it was given, and type 0 whatever type was asked for |
| `Msg.SerializeMessage` | src/common/msg/msg.c:43-79 | a missing message is ENOMEM; otherwise the buffer is a terminated string with the text, and the size leaves out the terminator |
| `Msg.SerializeIsCString` | src/common/msg/msg.c:67-71 | printing C strings gives a C string, so `strlen` measures the whole text |
| `Bus.NbusSend` | src/common/nbus/nbus.c:182-204 | exactly the first `size` bytes go to the end of the queue, or nothing and EIO; ENOENT without a context |
| `Bus.NbusReceive` | src/common/nbus/nbus.c:206-260 | takes the oldest message and cuts it at the first NUL, with a size that counts the terminator; EAGAIN, EIO and ENOENT leave chunk and queue alone |
| `Bus.HopKeepsText` | src/common/nbus/nbus.c:193-250 | a text survives a hop if and only if the size sent covers it, and is otherwise cut to a prefix |
| `Bus.BothSizesDeliver` | src/common/nbus/nbus.c:193-250 | sizes with and without the terminator both deliver the whole text with the larger size |
| `Bus.RelayIsFixed` | src/common/nbus/nbus.c:182-260 | after the first hop, relaying a chunk any number of times changes nothing |
| `Request.GetConfigFromRootDaemon` | src/module/common_daemon.c:9-70 | succeeds if and only if the daemon is a crawler or a collector, there is a channel and it takes the message; then the print of one request is on the bus, and otherwise the result is EINVAL and nothing is sent |
| `Request.RequestReachesRoot` | src/module/common_daemon.c:41-57 | after any number of relays the root decodes the request that was made if and only if the worker's name has no quote |
| `Request.RequestIsJson` | src/module/common_daemon.c:41-57 | the text arrives unchanged, and is JSON of the schema if and only if the name is a JSON string body |
| `Request.TypeArrivesOnlyFromCrawlers` | src/module/common_daemon.c:27-42 | for a name without a quote, the types are 0 for crawlers and 1 for collectors and the root reads 0, so the type arrives if and only if the worker is a crawler |
| `Endpoint.CopyFitsExactly` | src/common/nbus/nbus.c:41-52 | the copy of the stripped URL with its terminator fits the buffer if and only if the URL is not empty |
| `Endpoint.CopyEnd` | src/common/nbus/nbus.c:51-52 | copying from a position leaves the terminated end of the string in the buffer |
| `Endpoint.StripsIpc` | src/common/nbus/nbus.c:23-39 | `ipc://` and nothing else is removed, and only once |
| `Endpoint.GetFileFromUrl` | src/common/nbus/nbus.c:19-65 | the name is what follows a leading `ipc://`, or the whole URL, terminated inside a buffer of eight bytes per character; the copy leaves the buffer if and only if the URL is empty |
| `Endpoint.NbusInitPubsub` | src/common/nbus/nbus.c:67-137 | connects if the file is there and binds if not; binding an `ipc` URL adds its file; a failure of the library is ENOENT and changes nothing; an empty URL that gets as far as its file name leaves the buffer |
| `Endpoint.BindsExactly` | src/common/nbus/nbus.c:113-129 | in any sequence of opens, one binds if and only if its name is no earlier file and no earlier `ipc` URL's name |
| `Endpoint.FirstOpenBinds` | src/common/nbus/nbus.c:113-129 | among `ipc` URLs the first open of each binds and all later ones connect |
| `Endpoint.TwoBindersExactly` | src/common/nbus/nbus.c:113-129 | one URL gets two binders if and only if it is not `ipc` and no file has its name |
| `Numbers.StrtolStops` | src/common/json/json.c:122-132 | `strtol` from a token's start reads the token's own characters only, when a delimiter or the end follows |
| `Text.EvaluateDecimal` | src/common/json/json.c:119-131 | a decimal digit behind a number is ten times the number and the digit's distance from `0` |
| `Text.EvaluateHexadecimal` | src/common/json/json.c:119 | and the same for sixteen, with letters of either case |
| `Numbers.StrtolValue` | src/common/json/json.c:131 | `strtol` skips white space, takes a sign and all digits, and stops at the limits of `long` |
| `Numbers.StrtoldStops` | src/common/json/json.c:110-120 | the same for `strtold`, with exponents, hexadecimal, infinities and not-a-number |
| `Numbers.IntOfInteger` | src/common/json/json.c:131 | the `int` result is the integer denoted if and only if it fits -2147483648 to 2147483647; up to the limits of `long` it is congruent to it modulo 2 to the power 32, and beyond them it is -1 or 0 |
| `Numbers.IntOfDecimal` | src/common/json/json.c:131 | every `int` printed in decimal is read back |
| `Numbers.NumberExactly` | src/common/json/json.c:119 | JSON numbers are exactly the texts with a sign, digits, a fraction and an exponent as section 6 of RFC 8259 has them |
| `Numbers.NumberIsRead` | src/common/json/json.c:119 | every JSON number is read as the mantissa its digits denote, moved by the exponent with its sign and by the places behind the point |
| `Numbers.StrtoldOfNotation` | src/common/json/json.c:119 | the same for every decimal notation, such as one with leading zeros or a point without digits |
| `Numbers.StrtoldOfHexadecimal` | src/common/json/json.c:119 | hexadecimal notation is read with four binary places for each digit behind the point |
| `Numbers.StrtoldOfInfinity` | src/common/json/json.c:119 | the word for infinity is read as such, in any case and with its sign |
| `Numbers.StrtoldOfNan` | src/common/json/json.c:119 | and so is the one for not-a-number |
| `Numbers.StrtoldSkips` | src/common/json/json.c:119 | white space in front changes nothing |
| `Numbers.PlusIsNothing` | src/common/json/json.c:119 | and neither does a plus sign |
| `Numbers.DoubleOfFixed` | src/common/json/json.c:119 | every decimal written with a fixed number of places is read back as the same number |
| `Numbers.FixedIsNumber` | src/common/json/json.c:119 | and is a JSON number |
| `Tokens.EqualJsonKey` | src/common/json/json.c:99-108 | comparing type, length and bounded text decides whether the token is a string whose slice is the key |
| `Tokens.ReadersUseTheSlice` | src/common/json/json.c:110-132 | both readers depend on the token's slice only, though neither looks at the token's end |
| `Tokens.IntegerTokenExactly` | src/common/json/json.c:122-132 | an integer token is read as the integer it denotes if and only if that fits an `int` |
| `Tokens.NumberTokenIsRead` | src/common/json/json.c:110-120 | a number token is read as the number its parts denote |
| `Tokens.OthersReadAsZero` | src/common/json/json.c:110-132 | a token that is no primitive, or `true`, `false` or `null`, is read as zero by both readers |
| `Ticker.ScannableExactly` | src/common/json/btc-e_ticker.c:82-118 | every access of the scan is inside the array if and only if the last token is not one of the nine keys |
| `Ticker.LastKey` | src/common/json/btc-e_ticker.c:82-118 | reference: the position of the last token that equals a key, or none |
| `Ticker.NamesDiffer` | src/common/json/btc-e_ticker.c:83-117 | the nine names are distinct, so no test of the scan answers to another's key |
| `Ticker.KeyNamesExactly` | src/common/json/btc-e_ticker.c:83-117 | the names that the scan reacts to are `high`, `low`, `avg`, `vol`, `vol_cur`, `last`, `buy`, `sell` and `updated` |
| `Ticker.ScanFindsLast` | src/common/json/btc-e_ticker.c:82-118 | each of the eight numbers ends as the value after the last token of its name, or as it was if there is none |
| `Ticker.ScanFindsLastUpdated` | src/common/json/btc-e_ticker.c:115-117 | the same for the time |
| `Ticker.ScanFillsNine` | src/common/json/btc-e_ticker.c:82-118 | after the scan `high` has the value behind the last `"high"`, `low` that behind the last `"low"`, and so on for all nine fields |
| `Ticker.ParseFillsNine` | src/common/json/btc-e_ticker.c:75-121 | a parse that succeeds takes the pair from the second token and fills the nine fields that way from those behind it |
| `Ticker.FailsExactly` | src/common/json/btc-e_ticker.c:34-73 | each error and its reason: ENOMEM, EIO, EAGAIN and ENOENT for the four kinds of code from the tokeniser, EINVAL if and only if the first token is no object or the second no string |
| `Ticker.TimeFromText` | src/common/json/btc-e_ticker.c:28-121 | two parses agree on the time if the text has the key; otherwise the time is what the memory held |
| `Ticker.FieldFromText` | src/common/json/btc-e_ticker.c:28-121 | two parses over any memory agree on every number whose key is in the text |
| `Ticker.FieldFromMemory` | src/common/json/btc-e_ticker.c:28-121 | a number whose key is not in the text is what the memory held |
| `Ticker.TickerFromText` | src/common/json/btc-e_ticker.c:28-121 | with all nine keys the whole ticker is determined by the text |
| `BtceTicker.SetFields` | src/common/json/btc-e_ticker.c:83-117 | the nine tests in place are one turn of the specified scan |
| `BtceTicker.ParseBtceTicker` | src/common/json/btc-e_ticker.c:11-126 | the loop over the token array leaves the pair in the object and in each of the nine fields the value behind the last token of its own key, or what was there; or it returns the specified error, or reads outside where the specification says so |
| `TickerTree.MembersFit` | src/common/json/btc-e_ticker.c:82-118 | the tokens of an object's members lie in the text, and one of them is a key if and only if some name or some string in a value is one of the nine |
| `TickerTree.OverrunExactly` | src/common/json/btc-e_ticker.c:63-118 | on a JSON object the parse leaves the token array if and only if the object is empty or the last token is one of the nine keys |
| `TickerTree.ParseBindsMembers` | src/common/json/btc-e_ticker.c:63-121 | on a ticker text with quiet values the parse succeeds and binds the members in order onto what the memory held, a string, array or object as zero |
| `TickerTree.TickerFillsNine` | src/common/json/btc-e_ticker.c:63-121 | on such a text each field ends as the number of the members of its own name, or as what the memory held |
| `TickerTree.NumberOfLookup` | src/common/json/btc-e_ticker.c:82-118 | which is the number of the last such member |
| `TickerTree.TimeOfLookup` | src/common/json/btc-e_ticker.c:115-117 | and the same for the time |
| `TickerTree.LookupExactly` | src/common/json/btc-e_ticker.c:82-118 | the last member of a name is the one behind which none has it |
| `TickerTree.PermutedLookup` | src/common/json/btc-e_ticker.c:82-118 | with distinct names the last member of a name does not depend on the order |
| `TickerTree.UnknownIgnored` | src/common/json/btc-e_ticker.c:82-118 | bindings of other names have no effect, wherever they stand |
| `TickerTree.OrderAndCompanyDoNotMatter` | src/common/json/btc-e_ticker.c:63-121 | two texts with quiet values that bind the nine names alike, each at most once, are parsed alike, whatever their order, spacing and other members |
| `TickerTree.RoundTrip` | src/common/json/btc-e_ticker.c:63-121 | a pair, eight decimals and a time, written in any order with any spacing and any other members with quiet values, tokenised and extracted, come back as they were |
| `TickerTree.QuoteKey` | src/common/json/btc-e_ticker.c:83-117 | such a quote is written with the nine keys of the source, each for the number of its own name |
| `TickerTree.QuoteCanBeWritten` | src/common/json/btc-e_ticker.c:63-121 | every order of such a quote's members has a text that the round trip is about |
| `Companions.BoundFieldExactly` | src/common/json/btc-e_ticker.c:82-113 | a ticker text with quiet values has a key for a number if and only if one of its members has that name |
| `Companions.BoundTimeExactly` | src/common/json/btc-e_ticker.c:115-117 | and the same for the time |
| `Companions.QuietDoesNotMatter` | src/common/json/btc-e_ticker.c:82-118 | a member with an unknown name and a quiet value may be put anywhere into a ticker text without changing its parse |
| `Companions.QuietExactly` | src/common/json/btc-e_ticker.c:82-118 | a well-formed value has that property if and only if it is quiet: no string in it, at any depth, is one of the nine keys |
| `Companions.LoudValueOverwrites` | src/common/json/btc-e_ticker.c:82-118 | among quiet values, one string value that is the name of a field, with no member of that name behind it, leaves the field at zero; the number of a member in front survives if and only if it reads as zero |
| `Companions.LoudText` | src/common/json/btc-e_ticker.c:82-118 | the text `{"p":{"high":5,"note":"high","x":1}}` is parsed with `high` at zero |
| `Companions.UndatedText` | src/common/json/btc-e_ticker.c:28-121 | the text `{"p":{"high":1}}` parses and has no time, for every tokeniser that agrees with the grammar |
| `Freshness.FloorIsMaximum` | src/app/crawler.c:110-111 | the kept value is the maximum of the start and all polls |
| `Freshness.RecordIndicesExactly` | src/app/crawler.c:96-123 | the record positions are increasing, and are those above the start and every earlier poll |
| `Freshness.FreshIsRecords` | src/app/crawler.c:96-123 | what the filter publishes is the polls at the record positions, in order |
| `Freshness.FreshSplits` | src/app/crawler.c:96-123 | stopping anywhere and going on with the kept value publishes the same |
| `Freshness.FreshIncreases` | src/app/crawler.c:110-111 | what is published increases strictly above the start |
| `Freshness.FreshIsIdempotent` | src/app/crawler.c:110-111 | filtering what was published changes nothing |
| `Pipeline.CrawlTurn` | src/app/crawler.c:97-122 | the loop's body is one turn of the specified crawler, with what it sends at the end of the queue |
| `Pipeline.CrawlerLoop` | src/app/crawler.c:96-123 | for any budget and answers, the loop runs through if and only if every answer parses and the bus takes every record among them, and it puts on the bus the texts of the records before the first answer of which that is not so |
| `Pipeline.CrawlStopped` | src/app/crawler.c:99-116 | a crawler that has failed sends nothing more, whatever answers follow |
| `Pipeline.CrawlExactly` | src/app/crawler.c:96-123 | the crawler spends its whole budget if and only if every answer parses and every record is accepted, and sends exactly the records before the first answer that is not good |
| `Pipeline.PublishedAreFresh` | src/app/crawler.c:96-123 | those are the answers at the record positions, and their times are what the filter lets through |
| `Pipeline.CollectTurn` | src/app/collector.c:79-107 | the loop's body is one turn of the specified collector, with the row it stores and the message it takes |
| `Pipeline.CollectorLoop` | src/app/collector.c:77-108 | for any budget and schedule of arrivals, the loop runs through if and only if no receive fails and every message it takes parses and is stored; then the rows are those of the messages taken, and the others wait |
| `Pipeline.CollectStopped` | src/app/collector.c:80-101 | a collector that has failed takes and stores nothing more |
| `Pipeline.CollectExactly` | src/app/collector.c:77-108 | the collector spends its whole budget if and only if no receive fails and every message taken parses and is stored; otherwise what it has taken and stored at the first turn where not |
| `Pipeline.RowsMatchCount` | src/app/collector.c:77-108 | and then there is one row for every message taken |
| `Interleaving.CrawlerStepOk` | src/app/crawler.c:96-123 | a turn of the crawler keeps the invariant of the whole system |
| `Interleaving.CollectorStepOk` | src/app/collector.c:77-108 | and so does a turn of the collector |
| `Interleaving.LossOk` | src/common/nbus/nbus.c:193 | and so does the loss of any message on the way |
| `Interleaving.RunOk` | src/app/crawler.c:96-123 | the invariant holds in every reachable state of every interleaving |
| `Interleaving.SentAreRecords` | src/app/crawler.c:96-123 | in every run the messages sent are the records among the polls, all of them while the crawler runs, and the kept value is their maximum |
| `Interleaving.StoredInOrder` | src/app/collector.c:77-108 | in every run whose texts have their time, the rows' times increase strictly above zero |
| `Interleaving.OrderKeptExactly` | src/app/collector.c:77-108 | for any set of texts, that order is kept in all runs if and only if every text of the set that parses has an `updated` key |
| `Interleaving.OrderIsNotAlwaysKept` | src/app/collector.c:77-108 | over all texts the order is not kept: a ticker without a time breaks it |
| `Interleaving.StoredArePolled` | src/app/collector.c:77-108 | if every publishable text has all nine keys, the rows are a subsequence of the polled tickers |
| `Interleaving.RowsKeptExactly` | src/app/collector.c:77-108 | for any set of texts, that holds in all runs if and only if no publishable text of the set lacks one of the nine keys |
| `Interleaving.RowsAreNotAlwaysPolls` | src/app/collector.c:77-108 | over all texts the rows are not polls: the same ticker breaks it |
| `Interleaving.NothingLost` | src/app/collector.c:77-108 | without losses, what was taken followed by what is in transit is what was sent, in order |
| `Interleaving.Conservation` | src/app/collector.c:77-108 | without losses, and if every publishable text has all nine keys, the rows followed by the tickers in transit are the tickers sent, at every head of the collector's loop |
| `Interleaving.EverythingArrives` | src/app/collector.c:77-108 | without losses, a collector with turns left that nothing fails takes every message sent and stores a row for each |
| `Interleaving.OneRowAtMost` | src/common/sql/sql.c:212-218 | if an insertion never reports success, no run stores more than one row, and the collector stops with it |
| `PidFile.StableExactly` | src/common/utils/daemon.c:136 | a path names the same file before and after the change to `/tmp` if and only if it is absolute or the daemon started there |
| `PidFile.ResolveExactly` | src/common/utils/daemon.c:22-28 | a path that starts with a slash stands for itself, and any other for the one below the working directory |
| `PidFile.PidLineIsPrintf` | src/common/utils/daemon.c:36 | the line is what `printf` makes of the format in the source |
| `PidFile.PidLineNames` | src/common/utils/daemon.c:36 | whoever reads the line gets the PID: decimal digits that denote it, and a newline |
| `PidFile.OverwriteExactly` | src/common/utils/daemon.c:28-36 | writing into an opened file replaces its start and leaves the rest |
| `PidFile.StepFrame` | src/common/utils/daemon.c:17-71 | a step changes no file but the one its own process has a claim on |
| `PidFile.StepOkExactly` | src/common/utils/daemon.c:17-158 | the invariant (one claim per file, and the file holds what its claimant wrote) is kept by a step if and only if the step neither checks between another's check and open nor forks with a path that will move |
| `PidFile.RunOk` | src/common/utils/daemon.c:17-158 | the invariant holds along every run without such steps, whatever processes crash |
| `PidFile.OneServer` | src/common/utils/daemon.c:17-158 | along such runs at most one process serves on a file, the file is there and, if the write reached it, says that process's PID in decimal and a newline, and only the server named in it ever removes it |
| `PidFile.AtomicIsSafe` | src/common/utils/daemon.c:22-28 | schedules in which nothing comes between check and open, with absolute paths, have no such steps |
| `PidFile.ExclusionWhenAtomic` | src/common/utils/daemon.c:17-158 | so they keep the promise, in every interleaving and with crashes anywhere |
| `PidFile.AbsolutePathsExactly` | src/common/utils/daemon.c:105-148 | for any set of paths, such schedules keep the promise in all runs if and only if every path of the set is absolute |
| `PidFile.RaceBreaks` | src/common/utils/daemon.c:22-36 | from every state that keeps the invariant, every race can end with two daemons on one file, one PID readable in it, and the other daemon removing it |
| `PidFile.RaceIsReached` | src/common/utils/daemon.c:22-28 | two launches with one path reach such a race from the start |
| `PidFile.SomeRunBreaks` | src/common/utils/daemon.c:17-158 | every path, absolute or not, has a run from the start in which two daemons serve on its file |
| `PidFile.NoPathIsSafeInAnyOrder` | src/common/utils/daemon.c:17-158 | for any set of paths, the promise is kept over all orders of the steps if and only if the set is empty |
| `PidFile.StaleStays` | src/common/utils/daemon.c:22-26 | along a safe run, a file left by a crash stays unchanged for ever and nobody serves on it again |
| `PidFile.LaunchServesExactly` | src/common/utils/daemon.c:105-148 | a launch that nothing disturbs reaches service if and only if the file is not there |
| `PidFile.StopFrees` | src/common/utils/daemon.c:150-158 | a stop that nothing disturbs removes the daemon's own file and no other |
| `Lifecycle.WritePid` | src/common/utils/daemon.c:17-51 | an existing file is EINVAL and untouched, and a failed open changes nothing; else there is one file more, which says the PID in decimal and a newline if the line came through, and nothing if not |
| `Lifecycle.RemovePid` | src/common/utils/daemon.c:53-71 | removes the file at the stored path if it is there, and nothing without a path; EIO if it cannot be removed |
| `Lifecycle.BecomeDaemon` | src/common/utils/daemon.c:105-148 | the call is the run of its steps in `PidFile`; it goes on as the child in `/tmp` if and only if every call succeeds and the file was not there, and adds one file, with the child's PID readable in it if the line came through |
| `Lifecycle.BecomesResult` | src/common/utils/daemon.c:105-148 | where those steps lead, for every combination of failures: no process and an unclaimed file after each failure past the open |
| `Lifecycle.StopDaemon` | src/common/utils/daemon.c:150-158 | the call is the run of its two steps, and takes away the file at the stored path if it is there and can be unlinked; a process that never became a daemon removes nothing |
| `Launch.LoopPromises` | src/module/flipd/daemon_handler.c:31-62 | for every budget and schedule: one start before all receives, what was consumed followed by what remains is what arrived, at most one message a turn, and the chunk is the last one consumed or the empty one |
| `Launch.RunningExactly` | src/module/flipd/daemon_handler.c:31-62 | the loop succeeds if and only if the worker starts and no receive fails, or there are no turns |
| `Launch.CommandIsPrintf` | src/module/flipd/daemon_handler.c:33-36 | the command is what `printf` makes of the format in the source |
| `Launch.CommandWords` | src/module/flipd/daemon_handler.c:33-36 | its words are the program, the identity, the PID file and the URL, in this order, if and only if none of the three is empty or holds a space |
| `Launch.EarlyArrivalsTaken` | src/module/flipd/daemon_handler.c:31-62 | messages there by the first receive are all consumed, up to the budget |
| `Launch.WorkerTurn` | src/module/flipd/daemon_handler.c:32-58 | the loop's body is one turn of the specified loop, with what it does to the outside at the end of the host's log |
| `Launch.AsyncStartWorkerDaemon2` | src/module/flipd/daemon_handler.c:10-70 | the method is the specified loop on the bus and the host: queue, chunk, result and log of starts and receives are those of its final state, and a failure is EIO without a chunk |

## Left out

- Libraries: nanomsg, tevent, talloc, curl, sqlite, argp, inih and the journal are not part of this model, nor are `sql.c` beyond the insertion's outcome, `args.c`, `conf.c`, `logs.c`, and the unfinished tevent request path of `daemon_handler.c`.
- The tokeniser's own algorithm: jsmn is not part of this model. Its `size` field is not read by the code and is dropped, and the second pass over the same text is taken to agree with the first.
- Out of memory: every allocation succeeds, so the branches after a failed one are not there. Freeing, ownership, `sleep`, logging and closing descriptors are not there either.
- NULL names: `printf` of a NULL sender or recepient is not modelled. The chunk before the first receive has a NULL text, which is the empty text of size 0 here.
- Reads and writes outside an array: a modelled run ends where one would happen; what it would read or destroy is not modelled.
- `Numbers.StrtoldStops`: rounding to a double, negative zero and the payload of `nan(...)` are not modelled.
- `WriteMemoryCallback`: a poll's answer is one text, with the size that src/common/url/url.c:25-29 gives it.
- `Endpoint.FirstOpenBinds`: opening is one step, so two processes that both test for the file before either binds are not covered; nothing removes files between opens.
- `Lifecycle.BecomeDaemon`: each call runs undisturbed here; interleavings are in `PidFile`. `umask`, `setsid` beyond its failure, and the descriptors are not there.
- Links and directories: two paths that resolve to different texts are different files, so symbolic links, `..` and repeated slashes are not modelled.
- PIDs above the range of `int`, and the same number for two living processes.
- The bus never duplicates or reorders messages, and a subscriber that is connected late counts as one whose messages were lost.
