# FlashKV: a verified model

FlashKV is a single-threaded key-value store that speaks the Redis protocol. This project
models the path a command takes through it, and back after a crash, and proves one
connected argument about it:

    bytes -> commands -> indexed store -> log -> crash -> recovered store

Code that works by changing things step by step is modelled step by step: the store, the
log file, the command processor, the connection and the reply reader are classes with the
source's fields, and its loops are loops. Each such method is proved against a function or
relation on plain values, and the laws of the system are lemmas about those.

## The pieces

* **The request parser** (`Resp`, `Tokenizer`). `Parse` says what a buffer holds; the
  source's parser and tokenizer loops are proved equal to it. A decided result never
  changes when bytes are appended, with one exception: the inline size limit is applied to
  whatever happens to be buffered (`Oversized`). Encoding and parsing are inverse, and
  every proper prefix of an encoded command asks for more.
* **Glob matching** (`Glob`). `Matches` is the meaning of a pattern, by recursion on the
  pattern; a star may stand for any text. The loop that backtracks only to the last star
  decides exactly that.
* **The store** (`Storage.Database`). A hash map of nodes, a recency list and a vector of
  nodes with deadlines mirror each other; memory is accounted incrementally. `Valid` is the
  joint invariant: map and list hold the same nodes; a node is in the vector, at the index
  it remembers, exactly when it has a deadline; each entry is charged for its overhead, key
  and payload; total usage is the sum; and the recency list is strictly descending in a
  ghost stamp of last use. `View(now)` is the plain map of unexpired keys. Every operation
  keeps `Valid`, acts on `View` as the specification in `Keyspace` says, states the whole
  recency order it leaves in every case, errors and misses included, and never subtracts
  below zero. Lazy expiry, active expiry and inspection leave `View` as it is, so when an
  expired key is physically removed cannot be seen through the commands on keys. It can be
  seen through DBSIZE and INFO, which count stored entries (`Storage.Database.Size` says by
  how much), and in what the store's memory estimate makes it evict.
* **Commands** (`CommandSpec`, `CommandFacts`, `Commands`, `Queries`, `Processor`). `Exec`
  gives a command's effect on the unexpired keyspace, its reply and its log entries, from
  the arguments and the time alone. `CommandProcessor.Execute`, with its refusals, its
  evictions and its log, is proved to be a step of that specification that evicts exactly
  the shortest tail of the recency list.
* **The log** (`Aof`, `Recovery`, `Startup`, `Lifetime`). File and buffer always hold
  exactly what was appended, whatever writes come up short or fail. Redoing the log gives
  the live store. A restart from any byte prefix of the file redoes exactly the whole
  entries in it. `Lifetime.InStep` is an invariant of every command, expiry cycle and log
  write, and holds again after every restart.
* **Whole lives** (`History`). A `Moment` is all that matters of a server: time, keyspace,
  log, settings, and how much of the log is in the file. `After` says what each event makes
  of it, up to a `Choice` (the memory estimate at a request and the evictions it led to)
  that `Possible` bounds. `Run` lives exactly through its events. `Survive` runs, crashes
  at any byte and restarts a server any number of times, says what every life started from
  and led to, and that the server is still there if and only if the entries left by every
  crash replay. `RestartHoldsTheSame` is the recovery promise itself: with the log written
  out and every doomed key overwritten or left alone, a server started later holds exactly
  what the old one would still hold.
* **Connections** (`Stream`, `Server`). `Stream` says exactly when chunking can be observed,
  for any server. `Server` composes the parts: bytes arrive in chunks, are parsed, executed
  on the real store, logged and answered. For streams without over-long inline lines, the
  commands executed and the state of the connection do not depend on the chunks; nor do the
  store and the log, while no memory limit has been set and the log is healthy; nor do the
  replies, while besides no command has asked for DBSIZE, INFO or CONFIG GET. The bytes sent
  and the bytes pending are always exactly the replies.
* **Replies** (`Payload`, `Replies`, `ReplyFormat`). The bytes of each command's reply;
  framing a reply and showing it on a terminal both stop exactly at its end; what is shown
  is a function of the reply alone.
* **Laws** (`NumberLaws`, `Names`, `StringLaws`, `ListLaws`, `HashLaws`, `KeyLaws`,
  `ConfigLaws`, `InlineLaws`, `GlobLaws`, `ConnectionLaws`, `ReplyLaws`). What the
  specification itself comes to, in terms of the arguments a client sends, the keys and
  values it finds, the bytes it reads and the lines it types: every command by its name in
  any case, every argument by its position, every pattern and every typed line from its
  written form, and what a connection does with QUIT, with a pipeline and with malformed
  input. Their right-hand sides do not use the functions of the specification they are
  about, so that they say what is specified and not that it is.

## What does not hold, exactly

Five things one might expect of the code are false. Each is shown false at an input the
code can receive. Four are proved together with the exact condition under which they hold,
and one with a condition that is enough.

* *A restart gives back the live store.* Replaying `PEXPIREAT` with a deadline that has
  passed deletes the key at once, although later entries may have rescued or changed it in
  the live store. `Recovery.RecoveryExact`: restarting from every crash point gives the
  live contents if and only if no log entry is `Harmful`, that is, none persists, extends
  or recreates a key that was alive then and whose deadline had passed by the restart.
  `Counterexamples.RescuedKeyIsLost`: the run SET, PEXPIRE, PERSIST writes a log from which
  every restart after the old deadline loses the key. The comment at src/commands.cpp:306
  promises more than this. The equivalence is about all crash points of a log together;
  for one crash point alone it has one direction, since a harmful entry may be overwritten
  by a later one. `Recovery.RecoveryTheorem` derives recovery from a condition on the log
  alone.
* *A server can start from its own log.* `Counterexamples.StartIsRefused`: SET, PEXPIRE,
  APPEND, and an RPUSH on the same key once it has expired, all succeed and write a log that
  no later start can replay, because replayed APPEND recreates the key as a string and RPUSH
  then fails. It is enough that no entry is harmful (`Recovery.RecoveryExact`,
  `History.UnharmedRestarts`); this condition is one-way, because a harmful entry need not
  make a later one fail.
* *Chunking does not matter.* `Stream.ChunkingIndependence`: every way of cutting a stream
  gives the same session if and only if no inline line that the connection comes to is
  longer than the limit. `Stream.TwoChunks` is the same for one cut, and
  `Stream.LongLineMatters` is a line of 65537 letters whose newline arrives separately.
* *A client finds where a reply ends.* `Payload.ReplyIsFramed`: it does if and only if the
  command is neither an unknown name with a CRLF in it (src/commands.cpp:244-247) nor a
  CONFIG SET of an unknown parameter with a CRLF in it (src/commands.cpp:485-487), whose
  errors repeat the argument unchecked. `Payload.BrokenName` is a command named
  `A\r\nB`, whose reply breaks off after 25 of its 29 bytes.
* *Replies leave only after their writes are in the log file*, as the comment at
  src/tcp_server.cpp:400 has it. A failed flush does not hold replies back.
  `Server.FlushAndReply`: when bytes leave, every appended entry is in the file if and only
  if the flush succeeded, so the promise is kept exactly when the flush succeeds or the
  send takes nothing. `Server.RepliesOvertakeLog` executes one SET on a new server and
  ends with the reply sent and the file empty.

## Modelling decisions

* A clock reading is a parameter: one per command, not negative, and non-decreasing over a
  run. A replay happens at one time. The source's readings within one command are taken to
  agree. In `Server`, the n-th command runs at a given time `clock(n)`.
* Random sampling picks an arbitrary index; the time budget of active expiry is an
  arbitrary choice after each round. What the system answers to a `write` or `send` is a
  given list of responses (interrupted, not ready, some bytes, none), after which it takes
  everything.
* Handlers return the entries they log, in order, and the processor appends them right
  after the handler; the source appends from inside the handler. Nothing reads the log in
  between.
* Iterators into the recency list are identified with the nodes they point to.
* A value change together with its two memory adjustments is one helper (`Amend`).
* Characters are bytes where it matters (`IsBytes`); glob ranges compare them as signed
  `char`, as on the platforms the source is built for.
* The store's invariant does not rule out empty lists, hashes and sets, because the
  store's own interface does not; that no command leaves one visible is `AllProper`, which
  the command layer needs and keeps (`CommandFacts.ExecKeepsProper`).
* A command that is logged must be one that the parser accepts again, or a restart fails.
  Commands taken from a connection are: arrays by the parser's own limits, inline commands
  because one event reads at most 256 KiB (`Resp.DeliveredWithinLimits`).
* Sizes and counts in replies are taken to fit a `long long` (`Payload.SizesFit`).

## Model

| member | source | states |
|---|---|---|
| Text.IntegerRoundTrip | src/commands.cpp:40-55 | every 64-bit integer survives printing and strict parsing, so logged deadlines read back |
| Text.IntegerTextLength | src/database.cpp:484-487 | a counter's text has at most 20 characters, the constant in the overshoot bound |
| Text.StollRoundTrip | src/reply_format.cpp:71-86 | printed lengths and counts read back with the lenient number reader |
| Tokenizer.ReadArgument | src/resp.cpp:102-203 | the scanning loop over one argument, quotes and escapes included, reads what the token relation says |
| Tokenizer.TokenizeCommandLine | src/resp.cpp:102-203 | the loop over a line yields exactly the specified arguments or the same refusal |
| Tokenizer.QuoteValue | src/reply_format.cpp:8-30 | the quoting loop computes the specified quotation |
| Tokenizer.QuoteTokenizeInverse | src/reply_format.cpp:8-30 | any list of byte strings, quoted and joined with spaces, tokenizes back to itself |
| Tokenizer.QuotedOneLine | src/reply_format.cpp:8-30 | a quoted list never contains a newline, so it is one inline line |
| Resp.ReadBulkString | src/resp.cpp:242-312 | one bulk string: value and next position, need for more, or the first error in the source's order |
| Resp.ReadArguments | src/resp.cpp:236-333 | the loop over an array's elements agrees with the recursive reading, errors and shortage included |
| Resp.ParseInlineCommand | src/resp.cpp:68-98 | the inline branch, with the tokenizer's loop, computes the specified result on every buffer |
| Resp.ParseRespCommand | src/resp.cpp:205-333 | the incremental parser computes the specified result on every buffer |
| Resp.ParseStable | src/resp.cpp:205-333 | a decided result is unchanged by appended bytes, except for an oversized inline line |
| Resp.ArrayStable | src/resp.cpp:205-333 | a complete or malformed array command stays so under every extension |
| Resp.CompleteStable | src/resp.cpp:205-333 | a complete command is the same whatever follows it |
| Resp.WholeCommandSuffices | src/resp.cpp:205-333 | a complete command is recognised as soon as its own bytes are there |
| Resp.ArrayPrefixIncomplete | src/resp.cpp:205-333 | every proper prefix of a complete array command asks for more |
| Resp.InlinePrefixIncomplete | src/resp.cpp:68-98 | so does every proper prefix of an inline command, up to the inline limit |
| Resp.RespArray | src/resp.cpp:372-383 | the encoding loop produces the specified encoding |
| Resp.CommandRoundTrip | src/resp.cpp:372-383 | within limits, encode then parse gives back the arguments and consumes exactly the encoding, whatever follows |
| Resp.EncodedPrefixIncomplete | src/resp.cpp:372-383 | every proper prefix of an encoding asks for more |
| Resp.DeliveredWithinLimits | src/tcp_server.cpp:421-465 | every command that a connection can deliver, given how much one event reads, is within the parser's limits, and uses up what was waiting |
| Resp.QuotedLineParses | src/resp.cpp:68-98 | a quoted list followed by CRLF parses as an inline command with those arguments and that length |
| Glob.StarMeaning | src/database.cpp:162-233 | a star stands for any text: it matches at a position exactly when the rest matches at it or at a later one |
| Glob.NewStarSubsumes | src/database.cpp:170-233 | once a newer star is reached, forgetting the older one loses no match |
| Glob.NoLaterAtEnd | src/database.cpp:170-233 | when the text is used up, retrying the last star cannot succeed |
| Glob.MatchCharacterClass | src/database.cpp:72-123 | the class scanner accepts exactly the members, ranges, escapes and negations denote, and stops after the class |
| Glob.MatchToken | src/database.cpp:162-233 | one pattern token against one character |
| Glob.GlobMatch | src/database.cpp:162-233 | the backtracking loop answers true exactly when the pattern matches under the recursive meaning, and terminates |
| Tokenizer.TokensFit | src/resp.cpp:102-203 | a line gives no more arguments than it has characters, and none longer than itself |
| Ordering.ListingSound | src/database.cpp:387-405 | the listing of a set is ascending, without repetition, and has exactly its members |
| Ordering.SortedListing | src/database.cpp:387-405 | collecting and sorting gives that listing |
| Values.PayloadMemory | src/database.cpp:31-53 | the memory loop gives a payload cost that does not depend on iteration order |
| Values.HashCostPut | src/database.cpp:793-822 | what replacing or adding a field adds to a hash's cost |
| Keyspace.CreationSucceeds | src/database.cpp:457-491 | an operation that creates a missing key cannot fail afterwards |
| Keyspace.MissingStaysMissing | src/database.cpp:683-715 | other operations leave a missing key missing |
| Keyspace.PushAllOrder | src/database.cpp:656-681 | where each element stands after pushing several values at either end |
| Keyspace.ModifyKeepsProper | src/database.cpp:656-681 | no operation leaves an empty list, hash or set |
| Keyspace.DeletedCountZero | src/commands.cpp:517-531 | a DEL that removes nothing changes nothing |
| Storage.Database.constructor | src/database.cpp:235-238 | an empty store is valid |
| Storage.Database.ClearExpiry | src/database.cpp:317-331 | swap-and-pop keeps every back-index right, also when the node is the last one |
| Storage.Database.SetExpiry | src/database.cpp:305-315 | a node joins the vector at most once and remembers where |
| Storage.Database.Erase | src/database.cpp:287-295 | one entry leaves all three structures and the accounting; all others and their order stay |
| Storage.Database.Create | src/database.cpp:264-285 | one entry joins map, list front and accounting |
| Storage.Database.Touch | src/database.cpp:297-303 | the node becomes the most recently used, the others keep their order |
| Storage.Database.AddMemory | src/database.cpp:333-336 | entry and total grow together and the sum invariant holds |
| Storage.Database.RemoveMemory | src/database.cpp:338-341 | entry and total shrink together without going below zero |
| Storage.Database.FindLive | src/database.cpp:244-262 | finds exactly the unexpired entry; removing an expired one is invisible and counted |
| Storage.Database.FindOrCreate | src/database.cpp:457-468 | the entry found or a blank one, already visible, with its memory bound |
| Storage.Database.Del | src/database.cpp:358-367 | removes exactly that key and says whether it was visible |
| Storage.Database.Exists | src/database.cpp:369-371 | answers for the visible keyspace and does not touch |
| Storage.Database.Lookup | src/database.cpp:373-385 | the visible value, without touching it |
| Storage.Database.KeysMatching | src/database.cpp:387-405 | the visible matching keys in order; nothing changes |
| Storage.Database.Size | src/database.cpp:407-409 | counts stored entries: at least the visible ones, exactly those if and only if none has expired |
| Storage.Database.Clear | src/database.cpp:415-420 | an empty, valid store with no usage |
| Storage.Database.Set | src/database.cpp:426-437 | replaces value and deadline, becomes most recently used, with its memory bound |
| Storage.Database.Get | src/database.cpp:439-455 | the visible string or a type error; recency order and hit counters accordingly |
| Storage.Database.IncrementBy | src/database.cpp:457-491 | the specified change or error; on an error nothing is visible |
| Storage.Database.AppendTo | src/database.cpp:493-511 | likewise for appending |
| Storage.Database.ExpireAtMs | src/database.cpp:527-544 | sets the deadline, or deletes at once if it has passed |
| Storage.Database.Persist | src/database.cpp:565-575 | clears a deadline exactly when the visible key has one |
| Storage.Database.TtlMs | src/database.cpp:577-589 | -2, -1 or the positive time left |
| Storage.Database.ActiveExpireCycle | src/database.cpp:601-650 | terminates for every choice of samples; invisible; returns exactly the drop in size; survivors keep their recency order; empties the vector if everything in it had expired and time allows |
| Storage.Database.SampleRound | src/database.cpp:615-637 | one round removes only expired nodes, each once, shrinks the vector by as many, and leaves the others in their order |
| Storage.Database.ListPush | src/database.cpp:656-681 | the specified push, with memory bound and recency |
| Storage.Database.ListPop | src/database.cpp:683-715 | the specified pop; the last element takes the key with it |
| Storage.Database.ListRange | src/database.cpp:717-752 | the clipped range; touched only if it is not empty |
| Storage.Database.ListIndex | src/database.cpp:754-777 | the element counted from either end; touched only if there is one |
| Storage.Database.HashSet | src/database.cpp:793-822 | the specified puts, the number of new fields, the memory bound |
| Storage.Database.HashGet | src/database.cpp:824-843 | the field; touched only if it is there |
| Storage.Database.HashDelete | src/database.cpp:845-879 | the specified removals and their number; an emptied hash disappears |
| Storage.Database.LookupWhole | src/database.cpp:881-900 | the whole hash or set, which becomes most recently used |
| Storage.Database.SetAdd | src/database.cpp:929-951 | the specified additions and their number |
| Storage.Database.SetRemove | src/database.cpp:953-978 | the specified removals; an emptied set disappears |
| Storage.KeptIs | src/database.cpp:1052-1064 | the number of nodes that eviction keeps is determined by the limit: the most that fit |
| Storage.Database.EvictIfNeeded | src/database.cpp:1045-1069 | removes exactly the shortest suffix of the recency list that brings usage within the limit, reported tail first; always succeeds under allkeys-lru; every victim was last used before every survivor |
| Storage.Database.Inspect | src/database.cpp:1082-1108 | value, time left and memory of a visible key, changing nothing |
| CommandFacts.PlanOk | src/commands.cpp:557-593 | every operation a handler starts has 64-bit numbers, a future deadline for SET and something to add |
| CommandFacts.FailureIsAtomic | src/commands.cpp:287-293 | a command that answers with an error has changed nothing and logged nothing |
| CommandFacts.SilentChangesNothing | src/commands.cpp:296-300 | a command that logs nothing leaves the keyspace as it was |
| CommandFacts.ExecKeepsProper | src/commands.cpp:780-959 | commands never leave an empty list, hash or set visible |
| CommandFacts.LogIsCanonical | src/commands.cpp:296-308 | every log entry means the same operation whenever it is replayed, unconditionally |
| CommandFacts.VerbatimIsCanonical | src/commands.cpp:517-531 | commands logged as they came do not depend on the time they run |
| Commands.ReadOptions | src/commands.cpp:632-670 | the option loop of SET computes the specified options or the first error |
| Commands.StoreConditionally | src/commands.cpp:671-690 | SET with conditions and deadline: effect, reply, both log entries |
| Commands.DeleteKeys | src/commands.cpp:517-531 | DEL counts each key once and is logged only if something was removed |
| Commands.ExpireKeyAt | src/commands.cpp:557-593 | the EXPIRE family: a passed deadline is logged as a deletion, any other as an absolute time |
| Commands.PersistKeyNow | src/commands.cpp:619-626 | PERSIST is logged exactly when it cleared a deadline |
| Commands.StoreEach | src/commands.cpp:696-707 | MSET stores pair by pair, later pairs win |
| Commands.UpdateAndLog | src/commands.cpp:724-768 | the operations on one value: effect, reply or error, and whether they are logged |
| Commands.GrowthBounded | src/database.cpp:264-285 | no update adds more memory than its arguments account for |
| Commands.PlanFromArguments | src/commands.cpp:161-226 | exactly the commands marked as refusable under memory pressure have operations that can grow the store |
| Commands.RunWrite | src/commands.cpp:288 | any write command that is let through has exactly its specified effect and its memory bound |
| Commands.LogWithinLimits | src/aof.cpp:118-122 | a command within the parser's limits logs only entries within them |
| CommandFacts.ReadSpecifies | src/commands.cpp:314-346 | the specification gives a definite reply to every read command but DBSIZE, INFO and CONFIG |
| Queries.RunRead | src/commands.cpp:314-346 | any read command but CONFIG answers as specified, DBSIZE with the stored count, and leaves the visible keyspace alone |
| Queries.GetEach | src/commands.cpp:709-722 | MGET answers nil for missing keys and for other kinds of value |
| Queries.ListHash | src/commands.cpp:888-929 | HGETALL, HKEYS and HVALS in field order |
| Processor.SelectParameters | src/commands.cpp:426-449 | CONFIG GET lists the parameters whose name matches, in order |
| Processor.RunConfig | src/commands.cpp:423-494 | CONFIG SET maxmemory takes effect at once, evicts exactly what the new limit calls for, and ends within it unless the policy forbids; no other form touches a key |
| Processor.MakeRoom | src/commands.cpp:270-278 | eviction reports the shortest tail of the recency list, removes exactly it from view, and falls short exactly when the policy forbids it and usage was over the limit |
| Processor.CommandProcessor.Execute | src/commands.cpp:228-294 | every command is a step of the specification: keyspace, reply, log; it evicts exactly the shortest tail that the limit calls for; refused exactly when the log is unhealthy or memory is short under noeviction; only commands marked for it raise usage, and then to at most the limit and what the arguments account for |
| Aof.AppendOnlyFile.Append | src/aof.cpp:118-122 | the buffer grows by exactly the encoding |
| Aof.AppendOnlyFile.Flush | src/aof.cpp:124-164 | for every list of responses, how much is written and whether that is a success; file and buffer together are exactly what was appended, in order; the file is complete if and only if the flush succeeded |
| Aof.WholeCommandsFit | src/aof.cpp:48-77 | the number of whole commands in a prefix is the largest that fits |
| Aof.TornLog | src/aof.cpp:48-99 | reading any byte prefix of a log finds exactly the whole commands in it, stops where they end, and meets no error |
| Aof.RepairedLog | src/aof.cpp:59-77 | the truncated file reads back whole, to the same commands |
| Recovery.RedoAppend | src/tcp_server.cpp:575-595 | a log is redone piece by piece |
| Recovery.LogRedoesCommand | src/commands.cpp:296-308 | redoing what a command logged, when it ran, has exactly the command's effect and succeeds |
| Recovery.LogRedoesStep | src/commands.cpp:261-294 | the same for a step with its evictions |
| Recovery.RunIsItsLog | src/commands.cpp:261-308 | for every run, the live store is what redoing its log gives, without an error |
| Recovery.OperationExact | src/database.cpp:537-540 | one entry redone at the restart agrees with the live store exactly unless it is harmful |
| Recovery.RecoveryExact | src/tcp_server.cpp:572-608 | restarting at every crash point gives the live contents if and only if no entry is harmful, and then every entry replays without error |
| Recovery.DeadlineOrigin | src/commands.cpp:302-308 | every deadline in the store comes from a logged PEXPIREAT that nothing has overwritten since |
| Recovery.OverwrittenOnlyIsHarmless | src/database.cpp:537-540 | if doomed keys are only overwritten or left alone, no entry is harmful |
| Recovery.RecoveryTheorem | src/tcp_server.cpp:572-608 | under that condition on the log alone, a restart at any later time succeeds and gives the live contents |
| Counterexamples.RescuedRunLogs | src/commands.cpp:557-626 | what the run SET, PEXPIRE, PERSIST logs and leaves in the store |
| Counterexamples.RescuedKeyIsLost | src/commands.cpp:619-626 | the run SET, PEXPIRE, PERSIST writes a well-formed log and keeps the key for good; every restart after the old deadline loses it without an error |
| Counterexamples.ReusedRunLogs | src/commands.cpp:764-800 | what the run SET, PEXPIRE, APPEND, and RPUSH after the deadline logs and leaves in the store |
| Counterexamples.StartIsRefused | src/aof.cpp:79-92 | every command of that run succeeds, its log is well-formed, and every start from it fails |
| Payload.ErrorByFirstByte | src/tcp_server.cpp:581-591 | telling an error by the first byte of the reply is right for every reply |
| Startup.ReplayCommand | src/tcp_server.cpp:575-595 | the replay callback redoes one command and tells its error by the first byte |
| Startup.Load | src/aof.cpp:27-100 | loads exactly the readable commands, cuts off exactly a torn tail, succeeds exactly when nothing is corrupt and everything replays |
| Lifetime.StepWithinLimits | src/aof.cpp:118-122 | what a step logs, evictions included, stays within the parser's limits |
| Lifetime.TracksStep | src/commands.cpp:261-294 | a step and its log entries keep store and log in agreement |
| Lifetime.Serve | src/commands.cpp:228-308 | executing a command keeps store, log, buffer and file in step and answers as specified |
| Lifetime.ExpireSome | src/database.cpp:601-650 | active expiry needs no log entry: everything stays in step |
| Lifetime.FlushLog | src/aof.cpp:124-164 | the file is the whole log if and only if the write succeeded, and otherwise a prefix of it |
| Lifetime.CrashPoint | src/aof.cpp:27-100 | from any byte prefix of the file: which entries are found, what replaying them makes, and that it is the live store as of then if no entry is harmful |
| Lifetime.StartServer | src/tcp_server.cpp:564-608 | the start on any file, limits applied only after the replay |
| Lifetime.Restart | src/tcp_server.cpp:564-608 | a start after a crash anywhere in the file succeeds exactly when the whole entries replay, leaves exactly them in the file, and is again in step, so runs and crashes can be repeated |
| History.EvictsAsAllowed | src/commands.cpp:261-285 | a command is refused, and evicts, only as settings, log health and usage at the moment allow |
| History.Serves | src/commands.cpp:228-294 | a request leads to a possible moment, or is refused exactly as the moment says |
| History.Expires | src/database.cpp:601-650 | an expiry cycle leads to the moment with the same unexpired keys, whatever it removed |
| History.WritesLog | src/aof.cpp:124-164 | a log write moves exactly as many bytes into the file as the system takes |
| History.Run | src/tcp_server.cpp:238-328 | the server lives exactly through the given events, in order, one possible choice for each, and ends at the moment they lead to |
| History.Rise | src/tcp_server.cpp:564-608 | after a crash at any byte the next server starts if and only if the entries left replay, and then is the moment they determine |
| History.UnharmedRestarts | src/tcp_server.cpp:572-608 | without harmful entries it starts, with what the live store held after the entries left |
| History.RestartHoldsTheSame | src/tcp_server.cpp:564-608 | with the log in the file and doomed keys only overwritten, the start succeeds and the new server holds exactly what the old one would still hold |
| History.Survive | src/tcp_server.cpp:554-624 | over any number of lives, each is lived event by event from what the one before left; the server is still there if and only if what every crash left replays, else it stops at the first that does not; without harmful entries it is still there |
| Stream.Client.WriteToClient | src/tcp_server.cpp:507-549 | for every list of responses, how much is sent and whether the connection lives; across partial sends and compaction, bytes sent and bytes pending are exactly the replies in order |
| Stream.BoundaryExtends | src/tcp_server.cpp:467-505 | commands that are complete are cut off the same way when more bytes follow |
| Stream.TwoChunks | src/tcp_server.cpp:467-505 | cutting a stream in two changes nothing if and only if it does not cut an oversized inline line before its end |
| Stream.AnyChunks | src/tcp_server.cpp:467-505 | with no inline line too long, any chunking executes the same commands, makes the same replies and ends the same way |
| Stream.ChunkingIndependence | src/resp.cpp:68-98 | chunking never matters, exactly when no inline line is too long |
| Stream.LongLineMatters | src/resp.cpp:72-83 | a line of 65537 letters whose newline arrives separately ends in an error, and differently from the same bytes in one piece |
| Server.ExecuteOne | src/tcp_server.cpp:494-499 | executing and answering one command does to store, log and replies what the machine says |
| Server.ServeNext | src/tcp_server.cpp:472-501 | one turn of the loop: a complete command is cut off and executed, malformed input is answered once |
| Server.ProcessInput | src/tcp_server.cpp:467-505 | the consuming loop, with its single erase, executes exactly the complete commands on the store, keeps everything in step, and leaves input that waits for more |
| Server.ReceiveAll | src/tcp_server.cpp:421-505 | for streams without over-long inline lines, the commands executed, the connection, the store, the log and the replies end as if the stream had come in one piece, the last three under the conditions below |
| Server.RestartAndReceive | src/tcp_server.cpp:564-624 | a start from what a crash left, then a stream: it acts on what the replay made, and what it logs continues a log that a start can read |
| Server.FlushAndReply | src/tcp_server.cpp:399-406 | when bytes leave, the file holds every appended entry if and only if the flush succeeded; replies keep behind the log exactly when it succeeds or nothing is sent |
| Server.RepliesOvertakeLog | src/tcp_server.cpp:399-406 | a new server executes one SET, a write takes nothing, a send takes everything: the reply is out and the file is empty |
| Payload.ErrorLineIsPlain | src/commands.cpp:228-294 | errors that repeat the command's name do so only after finding it in the table, so their line has no line break |
| Payload.RepliesThatRepeat | src/commands.cpp:244-247 | only unknown names and unsupported CONFIG SET parameters are repeated as they came |
| Payload.ReplyIsFramed | src/commands.cpp:228-294 | the reply to a command is framed exactly if and only if the command is not one of those with a CRLF in the repeated argument |
| Payload.BrokenReply | src/commands.cpp:244-247 | where a client takes such a reply to end |
| Payload.BrokenName | src/commands.cpp:244-247 | a command named A CRLF B: 25 of 29 bytes are taken for the reply |
| Replies.CompleteReplyLength | benchmarks/benchmark.cpp:176-222 | the recursive framing, with its loop, computes the specified length, shortage or exception |
| Replies.FrameStable | benchmarks/benchmark.cpp:176-222 | a complete or bad frame stays so whatever follows |
| Replies.FrameExact | src/resp.cpp:335-396 | every nested reply is framed at exactly its encoding's length, wherever it stands |
| Replies.ReplyFraming | benchmarks/benchmark.cpp:176-222 | followed by anything it is whole, and every proper prefix is not |
| Replies.LineFraming | src/resp.cpp:341-345 | a line reply is framed exactly if and only if its own CRLF is the first one in it |
| ReplyFormat.ReplyReader.Format | src/reply_format.cpp:40-126 | the reader moves its position and grows its output as specified, or fails |
| ReplyFormat.ReplyReader.ReadLine | src/reply_format.cpp:131-142 | the line up to the next CRLF, and the position after it |
| ReplyFormat.ReadExact | src/reply_format.cpp:40-126 | a reply in a buffer is shown as a function of the reply alone, and reading stops exactly at its end |
| ReplyFormat.ReplyIsShown | src/reply_format.cpp:147-160 | the same at the top level, whatever follows the reply |
| ReplyFormat.FormatReply | src/reply_format.cpp:147-160 | every failure, exceptions included, shows as a protocol error |
| Ordering.LeqAtFirstDifference | src/database.cpp:387-405 | texts are compared at the first character where they differ, and a prefix comes first |
| NumberLaws.IntegerLanguage | src/commands.cpp:40-55 | a text is read as a number exactly if it is the number's digits, with zeros in front or not, with a minus sign if negative (or a negative zero), and it fits |
| NumberLaws.LenientLanguage | src/reply_format.cpp:71-86 | the lenient reader skips white space, takes either sign, stops at the first character that is no digit, and refuses what does not fit |
| Names.LettersInAnyCase | src/commands.cpp:14-38 | names compare in any case, other characters as they are |
| Names.UnknownNames | src/commands.cpp:244-248 | a name that is not one of those listed is reported as it was given and nothing is done |
| Names.StringCounts | src/commands.cpp:250-259 | the wrong number of arguments for a string command does nothing but say so |
| Names.HashCounts | src/commands.cpp:250-259 | the same for hashes |
| Names.ExpiryCounts | src/commands.cpp:250-259 | the same for deadlines |
| StringLaws.PlainSet | src/commands.cpp:632-690 | SET stores the value, drops any deadline, leaves all other keys, and logs itself |
| StringLaws.SetWithDeadline | src/commands.cpp:632-690 | SET with EX n or PX n stores the value with the deadline now + 1000n or now + n, and logs a SET and a PEXPIREAT with that time |
| StringLaws.SetConditionally | src/commands.cpp:675-679 | NX on a present key and XX on a missing one answer nil and do nothing; otherwise they are a plain SET |
| StringLaws.SetBoth | src/commands.cpp:632-690 | a condition and a deadline together, in either order |
| StringLaws.SetBadTime | src/commands.cpp:650-665 | times that are no numbers, not positive, or overflow are refused and nothing is done |
| StringLaws.SetBadSyntax | src/commands.cpp:640-674 | unknown options, a time option without a time, and NX together with XX are refused |
| StringLaws.SetTwoTimes | src/commands.cpp:646-668 | a second time option after a good one is a syntax error |
| StringLaws.MSetStores | src/commands.cpp:696-707 | the keys are the old ones and those at odd positions; each of these holds what follows its last mention, without a deadline; all others stay |
| StringLaws.MGetAnswers | src/commands.cpp:709-722 | for each argument in order the string under that key, or nil |
| StringLaws.AppendAdds | src/commands.cpp:764-768 | the text is added at the end, the deadline stays, the new length is answered |
| StringLaws.CounterAdds | src/commands.cpp:724-762 | INCR, DECR, INCRBY and DECRBY store and answer n plus their amount, keep the deadline, and refuse an overflow |
| StringLaws.CounterBadAmount | src/commands.cpp:736-762 | amounts that are no numbers, and the one that DECRBY cannot negate, are refused |
| ListLaws.RPushAdds | src/commands.cpp:791-800 | the list is the old one followed by the values in order |
| ListLaws.LPushAdds | src/commands.cpp:780-789 | the list is the values in reverse followed by the old one |
| ListLaws.LPopTakes | src/commands.cpp:802-810 | the first element is taken and answered, and the key goes with the last one |
| ListLaws.RPopTakes | src/commands.cpp:812-820 | the same for the last element |
| ListLaws.RangeAnswers | src/commands.cpp:822-832 | the elements between the two positions, both included, each counted from either end and clipped |
| ListLaws.IndexAnswers | src/commands.cpp:840-848 | the element at a position counted from either end, or nil |
| HashLaws.HSetPuts | src/commands.cpp:854-869 | the fields are the old ones and those at even positions from 2; each of these holds what follows its last mention; the number of new fields is answered |
| HashLaws.HDelRemoves | src/commands.cpp:875-886 | exactly the named fields go, their number is answered, it is logged if any went, and an emptied hash disappears |
| HashLaws.SAddAdds | src/commands.cpp:935-946 | exactly the named members are added, the number of new ones is answered, and it is logged if there are any |
| HashLaws.SRemRemoves | src/commands.cpp:948-959 | exactly the named members go, their number is answered, and an emptied set disappears |
| HashLaws.HGetAnswers | src/commands.cpp:871-873 | the value of that field, or nil |
| HashLaws.MembershipAnswers | src/commands.cpp:905-969 | HEXISTS and SISMEMBER answer 1 for what is there and 0 for what is not |
| HashLaws.HashListed | src/commands.cpp:888-929 | HGETALL, HKEYS and HVALS list the fields in ascending order, each followed by its value, alone, or by its value alone |
| HashLaws.SMembersAnswers | src/commands.cpp:961-963 | the members in ascending order |
| KeyLaws.DelRemoves | src/commands.cpp:517-531 | exactly the named keys go, the number that were there is answered, and it is logged if there were any |
| KeyLaws.ExistsCounts | src/commands.cpp:533-543 | the number of positions whose key is there |
| KeyLaws.KeysAnswers | src/commands.cpp:553-555 | exactly the keys that the pattern matches, in ascending order |
| KeyLaws.ExpirySets | src/commands.cpp:557-609 | seconds or milliseconds, from now or absolute: a future deadline is set and logged as an absolute time, a passed one deletes and is logged as that |
| KeyLaws.ExpiryRefuses | src/commands.cpp:557-609 | times that are no numbers or overflow are refused and nothing is done |
| KeyLaws.DeadlineIsSharp | src/database.cpp:244-262 | a key is there before its deadline and gone from its deadline on |
| KeyLaws.TtlAnswers | src/database.cpp:577-599 | TTL answers -2, -1 or the nearest number of seconds |
| KeyLaws.SetThenPttl | src/commands.cpp:684-687 | after SET with EX or PX, PTTL answers the time left until the deadline, and -2 from then on |
| KeyLaws.PersistClears | src/commands.cpp:619-626 | the deadline goes and the value stays; logged if there was one |
| KeyLaws.FlushEmpties | src/commands.cpp:348-352 | no key is left, and FLUSHALL is logged |
| KeyLaws.PingAnswers | src/commands.cpp:314-324 | PONG, the argument, or an error |
| KeyLaws.QuitAnswers | src/commands.cpp:228-240 | QUIT in any case is answered with OK and does nothing else |
| KeyLaws.MemoryAnswers | src/commands.cpp:496-511 | MEMORY USAGE of a string is 96 bytes, its key and its text |
| KeyLaws.CostOfOneMore | src/database.cpp:27-53 | what an empty list, hash or set costs, and what each further element, field or member adds |
| ConfigLaws.SetLimit | src/commands.cpp:71-124 | a number with a unit in any case sets the limit to their product, or is refused if that overflows |
| ConfigLaws.SetPolicy | src/commands.cpp:474-484 | the two policies by name, and nothing else |
| ConfigLaws.ConfigRefuses | src/commands.cpp:485-494 | other parameters and other forms are refused and change no setting |
| ConfigLaws.SelectedInOrder | src/commands.cpp:436-449 | CONFIG GET answers parameter after parameter |
| ConfigLaws.PressureRefuses | src/commands.cpp:270-285 | with a healthy log a command is refused exactly if it may grow the store, the policy forbids eviction and usage is over the limit |
| ConfigLaws.GrowingNames | src/commands.cpp:165-223 | which commands may grow the store, by name |
| ConfigLaws.ShrinkingNames | src/commands.cpp:165-223 | which commands write without growing it, by name |
| InlineLaws.WordsAreRead | src/resp.cpp:102-203 | bare words, text in single quotes and text in double quotes, with any white space between, are read as exactly those texts in order |
| InlineLaws.LineParses | src/resp.cpp:68-98 | such a line followed by CRLF is a complete command with those arguments and that length |
| InlineLaws.BrokenLineRefused | src/resp.cpp:68-98 | a quote that is not closed, or closed in the middle of a word, makes the line an error |
| InlineLaws.EscapeMeans | src/resp.cpp:102-203 | which character each escape in double quotes stands for |
| InlineLaws.ByteEscapeMeans | src/resp.cpp:47-61 | two hexadecimal digits in either case stand for the byte they spell |
| InlineLaws.QuoteWrites | src/reply_format.cpp:8-30 | how each character is written between quotes |
| GlobLaws.WrittenPatternMeans | src/database.cpp:72-233 | a pattern written from characters, question marks, stars and classes with ranges and negation matches exactly the texts that fit them piece by piece |
| GlobLaws.LiteralFitsItself | src/database.cpp:162-233 | text with its special characters escaped matches only itself |
| GlobLaws.HighBytes | src/database.cpp:72-123 | ranges order bytes from 128 on below the others |
| ConnectionLaws.QuitCloses | src/tcp_server.cpp:467-505 | QUIT is answered and closes the connection; what follows it stays unread, and store and log as they were |
| ConnectionLaws.OthersStayOpen | src/tcp_server.cpp:494-501 | any other command is executed and the connection goes on with what follows |
| ConnectionLaws.PipelineIsServed | src/tcp_server.cpp:467-505 | whole commands without QUIT are all executed, in order, before what follows them |
| ConnectionLaws.NothingAfterQuit | src/tcp_server.cpp:467-505 | of commands, QUIT and anything after it, the commands and QUIT are executed and nothing else |
| ConnectionLaws.TypedLine | src/tcp_server.cpp:467-505 | a typed line is executed as its words, and a line of white space is skipped |
| ConnectionLaws.EmptyArray | src/tcp_server.cpp:490-494 | an array of no elements is skipped |
| ConnectionLaws.ReceiveQuit | src/tcp_server.cpp:467-505 | on the real connection: QUIT and anything after it execute one command, leave the rest in the input and close |
| ConnectionLaws.ReceiveCommand | src/tcp_server.cpp:467-505 | on the real connection: any other command is executed, its entries are appended, its reply bytes are answered, and the connection stays open |
| ConnectionLaws.ReceiveMalformed | src/tcp_server.cpp:483-487 | on the real connection: malformed input is answered with its error, nothing is executed, and the connection closes |
| ConnectionLaws.BadArrayLength | src/resp.cpp:218-239 | array lengths that are no numbers, negative or above the limit |
| ConnectionLaws.BadElement | src/resp.cpp:253-264 | an element that is no bulk string |
| ConnectionLaws.BadBulkLength | src/resp.cpp:266-295 | bulk lengths that are no numbers, negative or above the limit |
| ConnectionLaws.BadTerminator | src/resp.cpp:297-318 | bytes of a bulk string that do not end in CRLF |
| ReplyLaws.FixedReplies | src/resp.cpp:335-370 | the bytes of OK, PONG and nil |
| ReplyLaws.KindReplies | src/commands.cpp:545-551 | the bytes of TYPE for each kind and for a missing key |
| ReplyLaws.ValueReplies | src/resp.cpp:354-367 | the bytes of a number and of a value |
| ReplyLaws.ListReplies | src/resp.cpp:372-383 | a list of texts goes out as the command with these arguments would come in |
| ReplyLaws.OptionalReplies | src/commands.cpp:709-722 | the bytes of MGET: the number of values, then each value with its length, or nil |
| ReplyLaws.ErrorReplies | src/resp.cpp:341-352 | every error is a line with a minus sign and its code: WRONGTYPE, OOM, MISCONF or ERR |
| ReplyLaws.NamingErrors | src/commands.cpp:244-259 | errors that repeat a name: as given if it is unknown, in small letters if it is known |
| ReplyLaws.GetBytes | src/commands.cpp:692-694 | the bytes that answer a GET |
| ReplyLaws.ShownReplies | src/reply_format.cpp:54-113 | what a terminal shows for lines, errors, numbers, nil and the empty array |
| ReplyLaws.ShownValue | src/reply_format.cpp:71-86 | raw output is the value itself, other output is one quoted word that reads back as the value |
| ReplyLaws.LabelsAlign | src/reply_format.cpp:101-113 | numbers stand at the right of a column as wide as the last one, one element to a line |
| ReplyLaws.ShownPair | src/reply_format.cpp:88-119 | an array of two is shown in order, nested elements indented by the width of their label |

## Left out

- The text of INFO and `formatBytesHuman`: formatting. INFO answers with an arbitrary text.
- Sockets, poll, accept, signals, option parsing, `MAX_QUERY_BUFFER` and the output watermark: plumbing and scheduling-dependent limits.
- fsync, open and file descriptors: the file is a byte sequence; `truncate` is taken to succeed; durability below `write` is outside the code.
- Storage.Database.ActiveExpireCycle: does not state how many keys one cycle removes, because the one-in-four threshold is a heuristic.
- Storage.Database.ListPop: requires that the list is not empty, because the source reads its first element unchecked; the command layer proves it.
- Queries.RunRead: does not state the recency order a read command leaves; each store operation it calls does.
- Startup.Load: says what a replay comes to for files in which no command sets a memory limit; the server never logs CONFIG.
- Lifetime.StartServer: the same.
- Server.ReceiveAll: says what store and log come to while no memory limit is set and the log is healthy, and what the replies come to while no command asks for server statistics; the rest depends on more than the unexpired keyspace. The commands executed, the pending bytes and the state of the connection are stated without condition.
- Server.RestartAndReceive: under the same conditions.
- Server.ExecuteOne: under the same conditions.
- Server.ServeNext: under the same conditions.
- History.Run: the memory estimate at a request, and which keys it evicts when it may evict, are choices that the events do not determine; `Processor.CommandProcessor.Execute` says which keys they are.
- Server.ProcessInput: under the same conditions; one connection; commands of other connections in between are not part of this model.
- The copying of argument vectors, `std::sort`, hash-table iteration order and the Mersenne generator.
- Recursion depth when nested replies are framed or shown: the model has no stack limit.
- src/main.cpp, web/, and the benchmark's threads and statistics: user interface, bindings and load generation.
