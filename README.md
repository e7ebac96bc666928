# Verified model of the multithreading exercises

This project models, in Dafny, the sequential logic of a collection of small
C++ exercises about threads and services, and proves what that logic
promises:

- **Counter server** (`CounterServer`, `LineReader`, `Text`). A line protocol
  over a store of named `uint64_t` counters: `INCR key [delta]`, `GET key`,
  `STATS`, `QUIT`, with replies `OK <v>`, `VALUE <v>`, `STATS ...`, `BYE` and
  `ERR unknown_command`. It includes the buffered `read_line`, the
  per-connection loop `handle_client` as the class `ServerState`, and
  `parse_args`. The socket is replaced by the list of results its `recv`
  calls return.
- **In-process counter benchmark** (`CounterService`). It covers:
  - `DistributedCounter`, a map of per-post view counts with operation counters;
  - the rule by which `gen_batch` turns two random draws into a request;
  - `WorkloadManager::run` over a slice of the batch;
  - the split of the batch into per-thread slices, run one after another.
- **Command-line parser** (`ArgParser`). It covers:
  - the option table of `ArgParser` (`add_option`, `add_flag`);
  - the tokenizer `parse`, with long, short and `--name=value` forms and its errors;
  - the `usage` formatter, `strip_dashes` and `to_int`;
  - `load_cli_settings`, with its callbacks recorded as events.
- **Load-generating client** (`CounterClient`). It covers:
  - `parse_args` with the clamp of the write percentage;
  - the `INCR`/`GET` request lines;
  - the request loop, which counts the replies by prefix. The loop is fed the random draws and the `recv` results.
- **Sliding-window aggregator** (`Aggregator`). It has two layers:
  - a value layer (`Window` and functions on it), over which the invariant "totals equal the sums over the buckets" is proved;
  - the class `WindowAggregator`, proved step by step against the value layer. It updates an array of buckets and its two total maps in place.
  The `static` start time of `advance_to` is modelled as a per-object field `clock`, which is what it is for the single aggregator `main` builds.
- **Sorting** (`SortSpec`, `QuickSort`, `Lomuto`, `BucketSort`). It covers:
  - the count-then-swap quicksort of `sorting/quick_sort.cpp`, whose copy in `sorting/sorting.cpp` is the same code and is modelled once;
  - the Lomuto quicksort of `qs.cpp`;
  - the sequential bucket sort, over `real` values;
  - the sequential meaning of the exclusive scan of `tbb_bucket_sort`.
  All three sorts are proved to leave their array sorted and a permutation of its old contents.
- **Pattern counter** (`FileReader`). The count of (overlapping) occurrences
  made by `get_num_occurances`, and the byte ranges `process` gives each
  thread, in `size_t` arithmetic.

Fixed-width arithmetic is written out:
- `uint64_t` and `size_t` wrap modulo 2^64 (`Machine.TWO_64`);
- the conversion of an unsigned value to `int` keeps its low 32 bits (`Machine.ToInt32`);
- C++ `int` division truncates toward zero (`CounterService.CDiv`);
- `float`-to-`int` conversion truncates toward zero (`BucketSort.Trunc`).

Where the source has a bug, the model follows the code as written, and a
variant with the evidently intended behaviour is proved beside it (see
"## Findings"). For the aggregator and `load_cli_settings` the variant is selected by a `fixed` parameter.

## Model

| member | source | states |
|---|---|---|
| Text.NatToDecimal | counter_service/src/counter_server.cpp:150 | `std::to_string` of an unsigned value is a non-empty digit string without leading zero that denotes exactly that value |
| Text.ScanInteger | counter_service/src/counter_server.cpp:146 | the `strtol`-style scan, when it succeeds, ends just after a digit and stops at the first non-digit |
| Text.Stoi | counter_service/src/counter_server.cpp:32 | `std::stoi` succeeds only with a value that fits in `int` |
| Text.ScanLong | counter_service/src/counter_server.cpp:146 | `iss >> delta` on a `long long` succeeds only with a value in the 64-bit signed range |
| Text.NextToken | counter_service/src/counter_server.cpp:142 | `iss >> word` skips white space and takes the longest run of non-space characters; an empty word means only white space was left and nothing remains |
| Text.IndexOf | counter_service/src/counter_server.cpp:93 | `buf.find('\n')` is the first position of the character, and is absent exactly when the character does not occur |
| Text.StartsWith | counter_service/src/arg_parser.h:28-30 | `s.rfind(p, 0) == 0` holds exactly when `p` is a prefix of `s` |
| Text.ScanIntegerOfDecimal | counter_service/src/counter_server.cpp:146 | scanning what `std::to_string` printed gives back the number and stops right after it |
| Text.NextTokenOfWord | counter_service/src/counter_server.cpp:142 | a word followed by white space or nothing is read back as that word |
| Text.NextTokenSkipsSpace | counter_service/src/counter_server.cpp:144 | leading white space does not change the word `>>` reads |
| Text.ScanIntegerSkipsSpace | counter_service/src/arg_parser.h:153 | leading white space does not change the integer `std::stol` scans, only where the scan ends |
| LineReader.NextLine | counter_service/src/counter_server.cpp:90-110 | `read_line` consumes no more `recv` results than exist, and a line served from the buffer alone shortens the buffer |
| LineReader.NextLineSplitsStream | counter_service/src/counter_server.cpp:93-108 | the line is everything before the first newline of the buffered and received bytes, the newline is dropped and what follows stays buffered; at the end of the stream all received bytes stay buffered with no newline; a buffered newline is served without any `recv` |
| LineReader.ReadLine | counter_service/src/counter_server.cpp:90-110 | the loop of `read_line` returns true with the line and the remaining buffer, or false at the end of the stream leaving `out` untouched, as `NextLine` describes |
| LineReader.SplitsAtFirstNewline | counter_service/src/counter_server.cpp:93-97 | with a newline buffered, `out` is the text before the first newline and the buffer keeps what follows it |
| LineReader.LineIsUnique | counter_service/src/counter_server.cpp:93-97 | there is only one way to split a text into a newline-free line, a newline and a rest |
| LineReader.PeerCloseKeepsPartialLine | counter_service/src/counter_server.cpp:100-108 | without a newline, received bytes are appended and nothing is consumed; a zero-length receive returns false and leaves the partial line buffered |
| CounterServer.ServerState.constructor | counter_service/src/counter_server.cpp:128-132 | a new state has no counters and zero operations |
| CounterServer.ServerState.Dispatch | counter_service/src/counter_server.cpp:143-170 | the dispatch on one command updates the counters and `ops` and returns the reply and the close bit exactly as `Execute` says |
| CounterServer.ServerState.HandleLine | counter_service/src/counter_server.cpp:139-170 | a line read is answered exactly when it is not empty, with the effect `Step` gives it |
| CounterServer.ServerState.HandleClient | counter_service/src/counter_server.cpp:134-173 | one connection leaves the store and sends the replies `Session` gives: lines served in order until the end of the stream or QUIT |
| CounterServer.SessionAtEof | counter_service/src/counter_server.cpp:138 | the session ends with the stream, with no further reply |
| CounterServer.SessionSkipsEmptyLine | counter_service/src/counter_server.cpp:139 | an empty line gets no reply and changes nothing |
| CounterServer.SessionServesLine | counter_service/src/counter_server.cpp:141-170 | a non-empty line is answered, and the session goes on unless it was QUIT |
| CounterServer.ParseGetLine | counter_service/src/counter_server.cpp:151-152 | "GET key" reads as a GET of that key |
| CounterServer.ParseIncrArgument | counter_service/src/counter_server.cpp:144-146 | "INCR key arg" is an increment by the `long long` that `arg` starts with, or by 1 when that read fails |
| CounterServer.ParseIncrLine | counter_service/src/counter_server.cpp:143-146 | "INCR key n" reads back as an increment of that key by n, for every 64-bit n |
| CounterServer.ExecuteEffects | counter_service/src/counter_server.cpp:143-170 | every command is answered; only QUIT ends the session; only INCR changes the counters and adds at most its own key; INCR, GET and STATS count one operation, QUIT and unknown verbs none |
| CounterServer.StepSkipsEmptyLine | counter_service/src/counter_server.cpp:139 | an empty line leaves counters and `ops` unchanged and gets no reply |
| CounterServer.GetAfterIncr | counter_service/src/counter_server.cpp:143-157 | a GET right after an INCR of the same key replies with the value that INCR reported, and changes no counter |
| CounterServer.GetOfMissingKey | counter_service/src/counter_server.cpp:151-157 | GET of a missing key replies "VALUE 0", counts one operation and inserts nothing |
| CounterServer.IncrTwice | counter_service/src/counter_server.cpp:147-148 | two increments of a key add up modulo 2^64 |
| CounterServer.IncrUndo | counter_service/src/counter_server.cpp:147-148 | incrementing by -d undoes incrementing by d, through the cast to unsigned |
| CounterServer.NegativeDeltaWraps | counter_service/src/counter_server.cpp:148 | "INCR k -1" on a fresh key stores 2^64 - 1 |
| CounterServer.ApplyKeys | counter_service/src/counter_server.cpp:158-163 | the keys that STATS counts are exactly those named by some INCR |
| CounterServer.ApplyOps | counter_service/src/counter_server.cpp:149 | `ops` is the number of INCR, GET and STATS commands, modulo 2^64 |
| CounterServer.ParseArgs | counter_service/src/counter_server.cpp:28-41 | the argument loop ends as `ScanArgs` says: `--port` takes the next argument only when there is one, unknown arguments are ignored, help exits, and a bad port aborts |
| CounterServer.DefaultArgs | counter_service/src/counter_server.cpp:22-26 | without arguments: port 9000, not verbose, port reuse on |
| CounterServer.PortArgument | counter_service/src/counter_server.cpp:32 | `--port P` sets any `int` P; a trailing `--port` is ignored |
| CounterService.DistributedCounter.constructor | counter_service/src/counter_service.cpp:13-17 | a new counter has no posts and zero read and write counts |
| CounterService.DistributedCounter.AddView | counter_service/src/counter_service.cpp:20-26 | only that post's count grows by one (from 0 when new), and `write_ops_` grows by one |
| CounterService.DistributedCounter.GetViews | counter_service/src/counter_service.cpp:28-37 | the stored count, or 0 for a post never viewed; nothing is inserted and `read_ops_` is not touched, because its increment is unreachable |
| CounterService.DistributedCounter.GetReadOps | counter_service/src/counter_service.cpp:39 | returns the read count |
| CounterService.DistributedCounter.GetWriteOps | counter_service/src/counter_service.cpp:40 | returns the write count |
| CounterService.WorkloadManager.constructor | counter_service/src/counter_service.cpp:98-100 | the manager is bound to the shared counter it is given |
| CounterService.WorkloadManager.Run | counter_service/src/counter_service.cpp:101-114 | the counters become the old counters with `cmds[start..end)` applied in index order; writes grow by the number of ADD_VIEW requests; reads stay as they were |
| CounterService.WorkloadManager.Dispatch | counter_service/src/counter_service.cpp:105-109 | one request of the loop: a GET_VIEWS leaves the counters and both operation counts alone, an ADD_VIEW applies its effect and adds one write |
| CounterService.GenBatch | counter_service/src/counter_service.cpp:58-84 | exactly `batch_size` requests in draw order, each with a post in `[0, max_post_id]`, and a GET exactly when the second draw is a multiple of `reads_per_writes + 1` |
| CounterService.WorkPerThread | counter_service/src/counter_service.cpp:137 | a non-empty batch gives a `work_per_thread` of at least 1 (trailing threads may still get empty ranges) |
| CounterService.ThreadsCoverBatch | counter_service/src/counter_service.cpp:137 | `num_threads * work_per_thread` reaches the batch size |
| CounterService.ThreadOfRequest | counter_service/src/counter_service.cpp:143-144 | request k lies in the range of thread `k / work_per_thread` and of no other thread |
| CounterService.AppliedConcat | counter_service/src/counter_service.cpp:104-110 | applying two pieces one after the other is applying their concatenation |
| CounterService.ViewsAfterApplied | counter_service/src/counter_service.cpp:104-110 | each post's count grows by the number of ADD_VIEW requests for it; GET_VIEWS changes nothing |
| CounterService.RunThreads | counter_service/src/counter_service.cpp:136-152 | running every thread's slice in turn leaves the counters and the write count exactly as one pass over the whole batch |
| ArgParser.Join | counter_service/src/arg_parser.h:124-131 | `join_names` computes `JoinNames`, the names separated by ", " |
| ArgParser.Labels | counter_service/src/arg_parser.h:133-138 | one label per option, in order, and `pad` the widest of them |
| ArgParser.RenderLines | counter_service/src/arg_parser.h:140-144 | the second loop of `usage` writes exactly `UsageLines` |
| ArgParser.Parser.constructor | counter_service/src/arg_parser.h:38 | a parser starts with its program name and no options |
| ArgParser.Parser.Register | counter_service/src/arg_parser.h:49-51 | the option is appended and each of its names points at its index |
| ArgParser.Parser.AddOption | counter_service/src/arg_parser.h:41-52 | a valued option is appended and registered under all its names |
| ArgParser.Parser.AddFlag | counter_service/src/arg_parser.h:55-65 | a flag without value is appended and registered under all its names |
| ArgParser.Parser.ParseToken | counter_service/src/arg_parser.h:70-113 | one token either ends parsing (`--`), throws the error `ParseFrom` names, or fires one callback and moves on as `ParseFrom` says |
| ArgParser.Parser.Parse | counter_service/src/arg_parser.h:68-115 | `parse` fires the callbacks and raises the error of `ParseFrom` from `argv[1]` on |
| ArgParser.Parser.Usage | counter_service/src/arg_parser.h:117-146 | `usage()` is the header followed by the padded option lines |
| ArgParser.RegisteredNames | counter_service/src/arg_parser.h:51 | each registered name points at the new option, overriding earlier registrations; other names are untouched |
| ArgParser.LongOptionWithValue | counter_service/src/arg_parser.h:75-94 | for `--name=value` the name is the text before the first '=' and the value the rest; an empty value raises "Missing value for", a flag given a value raises "does not take a value" |
| ArgParser.OptionTakesNextArgument | counter_service/src/arg_parser.h:88-89 | a valued option without '=' takes the next argument, and raises "Missing value for" when there is none |
| ArgParser.DoubleDashEndsParsing | counter_service/src/arg_parser.h:71 | `--` ends parsing: nothing after it is looked at |
| ArgParser.ShortAndPositionalTokens | counter_service/src/arg_parser.h:97-113 | single-dash tokens are looked up verbatim, '=' included, and fail as "Unknown argument" when unregistered; a token without a dash fails as "Unknown positional" |
| ArgParser.EventsAreRegistered | counter_service/src/arg_parser.h:77-109 | every callback fired belongs to a registered option, and only valued options get a value |
| ArgParser.WidthIsWidest | counter_service/src/arg_parser.h:136 | `pad` is the width of the widest label |
| ArgParser.HelpColumnsAlign | counter_service/src/arg_parser.h:141-143 | each usage line is two spaces, the label, padding to `pad`, then two spaces, so every help text starts at column `pad + 4` |
| ArgParser.ColumnShape | counter_service/src/arg_parser.h:141-143 | a label no wider than `pad` follows two spaces and is padded to `pad + 4` characters |
| ArgParser.StripDashes | counter_service/src/arg_parser.h:32-35 | the result is the suffix of the input after its leading run of '-' |
| ArgParser.ToInt | counter_service/src/arg_parser.h:150-161 | success only with an `int`; any failure raises "Invalid integer for <flag>: <s>" |
| ArgParser.ToIntOfDecimal | counter_service/src/arg_parser.h:153-157 | after optional white space, `to_int` reads a printed number back exactly when it fits in `int` and nothing follows it |
| ArgParser.ToIntOfScan | counter_service/src/arg_parser.h:153-157 | `to_int` succeeds exactly when `std::stol` consumed the whole string and the value fits in `int` |
| ArgParser.ToIntOfBlank | counter_service/src/arg_parser.h:150-161 | a string of white space only is rejected |
| ArgParser.RegisterCliOptions | counter_service/src/arg_parser.h:165-212 | the six registrations build the option table and the name index |
| ArgParser.CliIndexIsRegistered | counter_service/src/arg_parser.h:169-212 | after the six registrations each of the nine names points at its option |
| ArgParser.ApplyCallbacks | counter_service/src/arg_parser.h:214-219 | the callbacks are applied in order; an exception ends with the message and the usage |
| ArgParser.LoadCliSettings | counter_service/src/arg_parser.h:164-220 | `load_cli_settings` as a whole: registration, parse, callbacks, error handling |
| ArgParser.NoArgumentsKeepSettings | counter_service/src/arg_parser.h:164-220 | with no arguments the settings come back unchanged |
| ArgParser.LongFlag | counter_service/src/arg_parser.h:93-95 | a long flag without '=' fires its callback with no value |
| ArgParser.HelpFiresFirst | counter_service/src/arg_parser.h:169-173 | `-h` or `--help` as the first argument fires the help callback first |
| ArgParser.HelpComesFirst | counter_service/src/arg_parser.h:169-173 | `-h` or `--help` first shows the usage and exits, whatever follows |
| ArgParser.OneValuedOption | counter_service/src/arg_parser.h:104-106 | a valued option followed by a value fires that option's callback once with that value |
| ArgParser.LoadOneEvent | counter_service/src/arg_parser.h:214-219 | after a single callback, loading ends as that callback does |
| ArgParser.CallbackOfDecimal | counter_service/src/arg_parser.h:178-211 | a valued option's callback given a printed `int` stores it |
| ArgParser.LoadOneDecimal | counter_service/src/arg_parser.h:176-212 | one valued option with an `int` value ends as that option's store step |
| ArgParser.ThreadsOption | counter_service/src/arg_parser.h:183-187 | `--threads N` sets the thread count |
| ArgParser.InvalidValueRejected | counter_service/src/arg_parser.h:159 | a value `to_int` rejects ends with "Invalid integer for <flag>: <value>" and the usage |
| ArgParser.ReadsPerWriteOption | counter_service/src/arg_parser.h:197-203 | `--reads-per-write N` is accepted exactly when N >= 1 |
| ArgParser.ShardsOptionAsWritten | counter_service/src/arg_parser.h:206-212 | as written, `--shards N` accepts every `int` N |
| ArgParser.ShardsOptionIntended | counter_service/src/arg_parser.h:209-211 | with the intended check, `--shards N` is accepted exactly when N >= 1 |
| ArgParser.InterpretKeepsReadsPerWrite | counter_service/src/arg_parser.h:200-202 | whatever the callbacks, loaded settings keep `reads_per_write >= 1` |
| ArgParser.InterpretIntendedKeepsValid | counter_service/src/arg_parser.h:200-211 | with the intended `--shards` check, loaded settings keep both counts at least 1 |
| ArgParser.LoadKeepsReadsPerWrite | counter_service/src/arg_parser.h:164-220 | for every command line, loading keeps `reads_per_write >= 1` |
| ArgParser.LoadIntendedKeepsValid | counter_service/src/arg_parser.h:164-220 | for every command line, the intended loading keeps valid settings valid |
| ArgParser.ZeroShardsAccepted | counter_service/src/arg_parser.h:209-211 | as written, `--shards 0` is loaded from the defaults, making the settings invalid |
| CounterClient.ParseClientArgs | counter_service/src/counter_client.cpp:26-44 | the argument loop and clamp compute `ClientArgsSpec`: valued flags only with a following argument, unknown arguments ignored, help exits, a bad number aborts |
| CounterClient.ClampPercent | counter_service/src/counter_client.cpp:42 | the percentage lands in [0, 100] and is kept when already there |
| CounterClient.DefaultClientArgs | counter_service/src/counter_client.cpp:16-24 | defaults 127.0.0.1, port 9000, 5 s, 10000 keys, 50% writes, seed 42, quiet |
| CounterClient.WritesArgument | counter_service/src/counter_client.cpp:34 | `--writes P` gives P clamped to [0, 100]; a trailing `--writes` is ignored |
| CounterClient.StartedPercentInRange | counter_service/src/counter_client.cpp:42 | a client that starts always has its write percentage in [0, 100] |
| CounterClient.KeyName | counter_service/src/counter_client.cpp:108 | a key name is a non-empty word without white space or newline |
| CounterClient.WritePercentIsShare | counter_service/src/counter_client.cpp:109 | of the draws below n, `min(n, write_pct)` are writes |
| CounterClient.WriteShareOfClampedPercent | counter_service/src/counter_client.cpp:96 | of the 100 draws in [0, 99], exactly `write_pct` write: none for 0, all for 100 |
| CounterClient.RequestTextIsOneLine | counter_service/src/counter_client.cpp:111-113 | a request is one non-empty line |
| CounterClient.LeadingLine | counter_service/src/counter_client.cpp:80 | a buffer that starts with a line serves that line and keeps the rest |
| CounterClient.ServerParsesRequest | counter_service/src/counter_client.cpp:112-113 | the server parses `INCR key<k> 1` as an increment by 1 and `GET key<k>` as a read of that key |
| CounterClient.ServerReadsRequest | counter_service/src/counter_client.cpp:112-115 | the server reads one request as one line, and parses it as the command the client meant |
| CounterClient.Round | counter_service/src/counter_client.cpp:107-120 | one round sends the request of its draws and reads one reply; it continues the loop or ends it as `Rounds` says |
| CounterClient.RunClient | counter_service/src/counter_client.cpp:102-121 | the loop's tally is that of `Rounds`, and it sends one request per round, in draw order |
| CounterClient.TallyBounds | counter_service/src/counter_client.cpp:118-120 | `ops` counts every completed round; `reads + writes <= ops`; at most one round per draw pair |
| CounterClient.ExecuteRequest | counter_service/src/counter_client.cpp:112-113 | the server answers `INCR key 1` with "OK <value>" and `GET key` with "VALUE <value>" |
| CounterClient.ServerAnswersRequest | counter_service/src/counter_client.cpp:115-116 | a request line gets the reply line of `ServerLine` |
| CounterClient.CountsServerLine | counter_service/src/counter_client.cpp:118-120 | a counter-server reply counts one more op, and one more write for INCR or one more read for GET |
| CounterClient.ServerRepliesAreCounted | counter_service/src/counter_client.cpp:115-120 | against the counter server every reply is counted, as a write for each INCR and as a read for each GET |
| Machine.ToInt32 | aggregator/src/aggregator.cpp:184 | the conversion to `int` keeps the value modulo 2^32 in the signed range, unchanged when it fits |
| Aggregator.Bump | aggregator/src/aggregator.cpp:133-138 | `counts[post]++` adds the post (from 0) and raises only its count by one |
| Aggregator.Peek | aggregator/src/aggregator.cpp:219-225 | reading through `operator[]` inserts the post but changes no count |
| Aggregator.AddEvent | aggregator/src/aggregator.cpp:162-170 | an event raises by one the count of its post and kind in the current bucket and in the totals; nothing else changes |
| Aggregator.Subtracted | aggregator/src/aggregator.cpp:203-217 | each post of the dropped bucket loses its count from the total and is erased once the total is no longer positive; other posts are untouched |
| Aggregator.AdvanceFrom | aggregator/src/aggregator.cpp:186-200 | the loop of `advance_to` keeps the ring shape |
| Aggregator.Advance | aggregator/src/aggregator.cpp:172-201 | `advance_to` keeps the ring shape and the cursor inside the ring |
| Aggregator.StepsElapsed | aggregator/src/aggregator.cpp:182-184 | without wrap-around, the buckets to advance are the whole durations elapsed since the start time |
| Aggregator.EmptyIsConsistent | aggregator/src/aggregator.cpp:148-155 | the freshly built aggregator satisfies the invariant |
| Aggregator.AddEventKeepsConsistent | aggregator/src/aggregator.cpp:162-170 | counting an event keeps totals equal to the sums over the buckets |
| Aggregator.SubtractedCount | aggregator/src/aggregator.cpp:203-217 | subtracting a bucket from totals that include it leaves the sum over the other buckets |
| Aggregator.RecycleKeepsConsistent | aggregator/src/aggregator.cpp:187-199 | a recycled bucket is subtracted before it is reset, so the invariant holds |
| Aggregator.RecycleKeepsTallies | aggregator/src/aggregator.cpp:187-199 | after a recycle no bucket holds a negative count: the recycled bucket is empty |
| Aggregator.RecycleKeepsCount | aggregator/src/aggregator.cpp:187-199 | after a recycle each post's total is still the sum of its counts over the buckets |
| Aggregator.AdvanceKeepsConsistent | aggregator/src/aggregator.cpp:172-201 | `advance_to` keeps the invariant |
| Aggregator.ProcessKeepsConsistent | aggregator/src/aggregator.cpp:157-160 | `process_event` keeps the invariant: every post's total of each kind is the sum of its counts over all buckets, and nothing is negative |
| Aggregator.PeekKeepsConsistent | aggregator/src/aggregator.cpp:219-225 | the zero entries the getters insert keep the invariant |
| Aggregator.RecycleMoves | aggregator/src/aggregator.cpp:187 | one recycle moves the cursor one place round the ring and the start time one duration on |
| Aggregator.AdvanceFromCursor | aggregator/src/aggregator.cpp:186-187 | advancing k buckets moves the cursor k places modulo the ring size |
| Aggregator.AdvanceFromClock | aggregator/src/aggregator.cpp:199 | advancing k buckets moves the start time k durations on, modulo 2^64 |
| Aggregator.FirstEventOnlyStamps | aggregator/src/aggregator.cpp:174-179 | the first event only stamps the current bucket with `[t, t + duration)` and sets the start time |
| Aggregator.WithinDurationNoAdvance | aggregator/src/aggregator.cpp:182-186 | an event within one duration of the start time advances nothing |
| Aggregator.AdvanceCatchesUp | aggregator/src/aggregator.cpp:182-199 | a later event advances by the whole durations elapsed, leaving the start time within one duration before the event |
| Aggregator.AdvanceStampsBehind | aggregator/src/aggregator.cpp:195 | as written, a single advance stamps the new bucket with the old start time, one duration behind |
| Aggregator.ProcessKeepsStamped | aggregator/src/aggregator.cpp:195-197 | with the intended stamp, the current bucket always spans `[start, start + duration)` |
| Aggregator.SubtractCounts | aggregator/src/aggregator.cpp:204-216 | the erase loop over one map computes `Subtracted` |
| Aggregator.WindowAggregator.constructor | aggregator/src/aggregator.cpp:148-155 | `num_buckets = window_sec / bucket_sec` empty buckets, cursor 0, start time 0, no totals, and the invariant holds |
| Aggregator.WindowAggregator.ProcessEvent | aggregator/src/aggregator.cpp:157-160 | the state becomes `Process` of the old state and keeps the invariant |
| Aggregator.WindowAggregator.AddEventToCurrentBucket | aggregator/src/aggregator.cpp:162-170 | the state becomes `AddEvent` of the old state and keeps the invariant |
| Aggregator.WindowAggregator.AdvanceTo | aggregator/src/aggregator.cpp:172-201 | the state becomes `Advance` of the old state and keeps the invariant |
| Aggregator.WindowAggregator.RecycleNext | aggregator/src/aggregator.cpp:186-200 | one loop iteration of `advance_to` is one `Recycle` |
| Aggregator.WindowAggregator.DropStatsFromTotal | aggregator/src/aggregator.cpp:203-217 | both totals become `Subtracted` by the bucket's counts |
| Aggregator.WindowAggregator.GetTotalLikes | aggregator/src/aggregator.cpp:219-221 | returns the post's total likes (0 when unseen) and inserts a zero entry |
| Aggregator.WindowAggregator.GetTotalViews | aggregator/src/aggregator.cpp:223-225 | returns the post's total views (0 when unseen) and inserts a zero entry |
| SortSpec.Swap | qs.cpp:10-15 | the two elements are exchanged and nothing else changes |
| SortSpec.SortedAroundPivot | sorting/quick_sort.cpp:48-63 | a range partitioned around its pivot, with both sides then sorted in place, is sorted and a permutation of what it held |
| QuickSort.CountAtMostPivot | sorting/quick_sort.cpp:12-16 | the count is the number of elements of `(start, end]` at most the pivot |
| QuickSort.Partition | sorting/quick_sort.cpp:7-41 | the pivot `arr[start]` ends at `start` plus that count, with only smaller-or-equal elements before it and only larger ones after it in `[start, end]`; the range is permuted and the rest untouched |
| QuickSort.QuickSortProcess | sorting/quick_sort.cpp:43-64 | nothing happens when `start >= end`; otherwise `[start, end]` ends sorted and permuted and the rest is untouched |
| QuickSort.QuickSortAsWritten | sorting/quick_sort.cpp:66-70 | the call with `arr.size()` as the inclusive end is in bounds only for the empty array |
| QuickSort.QuickSortReadsPastEnd | sorting/quick_sort.cpp:69 | for every non-empty array that call reads past the end; the last index is in bounds |
| QuickSort.QuickSort | sorting/sorting.cpp:100-104 | with the last index as the end, the array ends sorted and a permutation of its old contents |
| Lomuto.Partition | qs.cpp:17-33 | the pivot `array[r]` ends at the returned index, with only smaller-or-equal elements before it and only larger ones after it in `[p, r]`; the range is permuted and the rest untouched |
| Lomuto.Scan | qs.cpp:23-30 | after the scan `[p, i]` holds only elements at most the pivot and `(i, r)` only larger ones; the pivot is still at `r`, the range is permuted and the rest untouched |
| Lomuto.ParallelQuickSort | qs.cpp:35-55 | nothing happens when `left >= right`; otherwise `[left, right]` ends sorted and permuted and the rest is untouched |
| Lomuto.SortAllAsWritten | qs.cpp:77 | the call with `size` as the inclusive right end is in bounds only for an empty vector |
| Lomuto.MainSortsPastEnd | qs.cpp:71-77 | `main`'s call on 10^6 elements reaches one past the end |
| Lomuto.SortAll | qs.cpp:77 | with the last index as the right end, the vector ends sorted and permuted |
| BucketSort.Trunc | sorting/bucket_sort.cpp:9 | the conversion of a floating value to `int` truncates toward zero |
| BucketSort.UnitIntervalInRange | sorting/bucket_sort.cpp:9-10 | values in [0, 1) with at least one bucket all have a bucket index in range |
| BucketSort.BucketOfMonotone | sorting/bucket_sort.cpp:9 | the bucket index never decreases as the value grows |
| BucketSort.SortValues | sorting/bucket_sort.cpp:14 | `std::sort` on a bucket gives a sorted permutation of it |
| BucketSort.Distribute | sorting/bucket_sort.cpp:8-11 | every value goes to the bucket its index names, and the buckets together hold the input |
| BucketSort.SortEach | sorting/bucket_sort.cpp:13-15 | every bucket ends sorted, holding what it held |
| BucketSort.WriteBucket | sorting/bucket_sort.cpp:19-22 | one bucket is written at `write_idx` onward, and the cells after it keep their values |
| BucketSort.WriteBack | sorting/bucket_sort.cpp:17-23 | the array becomes the buckets laid out in order |
| BucketSort.FlattenSorted | sorting/bucket_sort.cpp:17-23 | sorted buckets placed by a monotone index lay out in sorted order |
| BucketSort.BucketSort | sorting/sorting.cpp:123-141 | with every bucket index in range, the array ends sorted and a permutation of its old contents |
| BucketSort.ExclusiveScan | sorting/bucket_sort.cpp:137-150 | `shifts[i]` is the sum of the sizes of the buckets before `i` |
| BucketSort.Sizes | sorting/bucket_sort.cpp:130-134 | `sizes[b]` is the size of bucket `b` |
| BucketSort.SizesPrefix | sorting/bucket_sort.cpp:137-150 | the sizes before bucket `b` add up to where bucket `b` starts in the layout |
| BucketSort.ScatterPlacement | sorting/bucket_sort.cpp:152-159 | the scatter writes `buckets[b][i]` to exactly the place the sequential write-back gives it |
| FileReader.Find | file_reader/main.cpp:51 | `find(pattern, pos)` is the first occurrence at or after `pos`, or none when there is no such occurrence |
| FileReader.GetNumOccurrences | file_reader/main.cpp:48-56 | the loop counts every index where the pattern occurs, overlapping occurrences included |
| FileReader.LongPatternNeverOccurs | file_reader/main.cpp:51-54 | a pattern longer than the text gives 0 |
| FileReader.OccurrencesBound | file_reader/main.cpp:51-54 | a non-empty pattern occurs at most `|data| - |pattern| + 1` times |
| FileReader.EmptyPatternOccurrences | file_reader/main.cpp:51-54 | the empty pattern is counted `|data| + 1` times |
| FileReader.OverlappingCounted | file_reader/main.cpp:51-53 | two overlapping occurrences of the pattern (such as "aa" at 0 and 1 in "aaa") are both counted, because the search resumes one past the last match |
| FileReader.ShareBounds | file_reader/main.cpp:104 | for a non-empty file the per-thread size is the rounded-up share, without wrap-around |
| FileReader.ChunkArithmetic | file_reader/main.cpp:104-106 | for a non-empty file every range is `[i*s, min((i+1)*s, file_size))` in plain arithmetic |
| FileReader.ChunksContiguous | file_reader/main.cpp:105-106 | each range ends where the next starts, unless cut at the end of the file; the last ends at the end of the file |
| FileReader.ChunksCover | file_reader/main.cpp:103-106 | every byte of the file lies in the range of thread `x / size_per_thread` |
| FileReader.TrailingChunkInverted | file_reader/main.cpp:106 | with more threads than bytes, a trailing range can start after it ends |
| FileReader.EmptyFileWraps | file_reader/main.cpp:104 | for an empty file `file_size - 1` wraps around, giving a per-thread size of 0 for one thread |

## Left out

- Sockets, `write_all`, `connect_tcp`, the accept loop and the SIGINT flag are I/O. A connection is the list of results its `recv` calls return, and a sent reply is a string. Sends never fail in the model.
- The `g_stop` check in `handle_client` is left out. A session runs until the end of its stream or QUIT.
- `uptime_s` in STATS is a clock reading. It is a parameter (`uptime`), already formatted. The QPS and duration reports are also left out.
- Threads, `std::shared_mutex`, atomics and the threaded quicksort branches are not modelled:
  - the worker threads of the benchmark run one after another;
  - the threaded quicksort branches recurse on the same ranges as the sequential ones.
- Random engines are not modelled. The draws are parameters: of `GenBatch`, of the client loop, and of the key and percentage picks.
- The client's timed loop runs until its draws run out. This stands for the time being up.
- `std::exit` and `std::cout` of usage are not modelled. The model returns an outcome value (`ShowUsage`, `PrintUsage`, `ShowHelp`, `Failure`, `Abort`) instead.
- The client's final STATS and QUIT exchange and its printed summary are output only.
- CounterService.DistributedCounter: the counters are unbounded integers, so the `int` overflow of a count and of `write_ops_` is not modelled.
- CounterService.WorkPerThread, CounterService.ThreadEnd, CounterService.RunThreads: the batch split uses unbounded integers, so it assumes `total_work + num_threads <= 2^31`, the bound under which none of the source's `int` products `thread_idx * work_per_thread` or `(thread_idx + 1) * work_per_thread` overflows; beyond it the source's ranges wrap, and that is not modelled.
- FileReader.GetNumOccurrences: the count is an unbounded integer, so the `int` overflow of `occurances` is not modelled.
- Reading the file, `prepare_file`, `get_file_size` and the word-boundary adjustment of `process_part_of_file` are file I/O on stream positions.
- FileReader.ShareBounds, FileReader.ChunkArithmetic, FileReader.ChunksContiguous and FileReader.ChunksCover assume `file_size + num_threads <= 2^64`. This keeps `(i + 1) * size_per_thread` from wrapping.
- Aggregator.WindowAggregator.constructor requires `bucket_sec != 0` and `window_sec / bucket_sec >= 0`. It also requires `bucket_sec * 1000` to fit in `int`, because the source computes that product in `int`.
- The aggregator's `BlockingQueue`, `EventGenerator`, `main`, the `ts2date_and_time_*` helpers and the printing members are not modelled. They are concurrency, randomness, library calls and output.
- The quicksorts are modelled on `int` arrays. The `float` instantiation of `sorting.cpp` sorts by the same comparisons.
- Bucket sort is modelled over `real`. The rounding of `val * num_buckets` in `float` is not modelled.
- `std::sort` is specified as "a sorted permutation" (`SortValues`, by insertion). It is not a model of the library's algorithm.
- `omp_bucket_sort` and the parallel execution and atomics of `tbb_bucket_sort` are not modelled. Only the sequential meaning of the scan and the scatter is.
- The `time` and `fill_with_rands` harness of `sorting.cpp` is not modelled.
- `gemm`, `async_executor` and the top-level `main.cpp` are not part of this model.
- CounterClient.RunClient: `ops`, `reads` and `writes` are unbounded, so the `uint64_t` counters do not wrap.
- Aggregator.AddEvent, Aggregator.WindowAggregator.AddEventToCurrentBucket: counts are unbounded integers, so the `int` overflow of the per-bucket counts and of the totals is not modelled.
- Aggregator.WindowAggregator.constructor, Aggregator.WindowAggregator.AdvanceTo: the start time is a field of each aggregator, starting at 0. In the source it is one function-local `static`, shared by every aggregator and outliving them, so a second aggregator built after events were processed would not take its first event as the first. `main` builds a single aggregator, for which the two agree.

## Findings

| source | as written | input that shows it | evidently intended | confidence | as-written member | corrected member |
|---|---|---|---|---|---|---|
| counter_service/src/arg_parser.h:210 | the `--shards` callback checks `settings.reads_per_write < 1` | `prog --shards 0` loads `num_shards = 0` | reject a shard count below 1 | not executed | ArgParser.ZeroShardsAccepted | ArgParser.LoadIntendedKeepsValid |
| aggregator/src/aggregator.cpp:195 | a recycled bucket starts at `bucket_start_time + i * duration`, after `bucket_start_time` has already moved on by `i` durations | start time S, event at S + duration: the new bucket is stamped `[S, S + duration)` instead of `[S + duration, S + 2 * duration)` | stamp the bucket with the start time it covers | not executed | Aggregator.AdvanceStampsBehind | Aggregator.ProcessKeepsStamped |
| sorting/quick_sort.cpp:69 | `quick_sort` passes `arr.size()` as the inclusive end | any non-empty array: `partition` reads `arr[size]` | pass `arr.size() - 1` | not executed | QuickSort.QuickSortReadsPastEnd | QuickSort.QuickSort |
| sorting/sorting.cpp:103 | the copy of `quick_sort` passes `arr.size()` as the inclusive end | any non-empty array: `partition` reads `arr[size]` | pass `arr.size() - 1` | not executed | QuickSort.QuickSortAsWritten | QuickSort.QuickSort |
| qs.cpp:77 | `main` calls `parallel_quick_sort(data, 0, size, 1)` with `right` inclusive | the vector of 1000000 elements: `partition` reads `array[1000000]` | pass `size - 1` | not executed | Lomuto.MainSortsPastEnd | Lomuto.SortAll |
