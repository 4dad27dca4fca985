# Verified model of the MySQL X DevAPI extension for PHP

This project models the parts of the extension where most can go wrong and proves what holds of
them. `dafny verify dfyconfig.toml` checks everything.

| files | what they model |
|---|---|
| `PoolModel`, `PoolProtocol`, `ConnectionPool` | the client's connection pool: the value it guards, any number of threads using it through its mutex and condition variable, and the pool and session objects themselves |
| `Placeholders`, `OperationTexts`, `Bindings` | named placeholders of a CRUD operation: one expression compiled to positions, all the texts of an operation, and the values bound to them |
| `PreparedMeaning`, `StatementModel`, `PreparedStatements` | find, modify and remove on a session that may support prepared statements, with the fall back to plain requests: what the server makes of each request, what one call sends and a whole session goes through, and the code over its list of statements |
| `FrameCodec`, `CompressionExecutor` | the frames inside compressed payloads, and the executor that compresses and decompresses them |
| `CaseInsensitive`, `CompressionSetup` | algorithm names and the negotiation of compression |
| `RowIterator`, `AnyToExpr`, `Identifiers`, `Splitting` | foreach over a buffered result, translation of values to expressions, quoting, splitting |

Main results:

- In every interleaving of the pool's critical sections no physical connection is in the hands of
  two clients, no handle is handed out twice or comes back after its release, the capacity is never
  exceeded, and no idle connection is left behind sleeping getters.
- Positions mean names if and only if every placeholder of every text that is sent stands where the
  operation's list of names has it: for conditions, groupings and values this means that no name is
  used twice or was used before, for fields and sort clauses that they use the names in their order
  from the first on. Then the plain path, the prepared path and the user's bindings all mean the same,
  from the texts the user wrote to what the server makes of the request.
- Every call of find, modify or remove sends exactly a given list of requests; over whole sessions it
  is known which calls are silently blocked and which execute a statement the server does not have.
- Extraction returns a list of messages if and only if the payload is the composition of that list
  and every message fits its 32-bit length.
- Negotiation returns an algorithm only after every earlier eligible choice was asked for and
  refused, and whatever it returns can be installed.

## Where the code does less than one expects

Each of these is a lemma or method about the code as it is, with the exact condition beside it.

- The parser appends every placeholder occurrence, also of a name it has already met, while the
  operation keeps each name once. A repeated name is read at a wrong position, or at none
  (`RepeatedNameExample`). Every field of find and every sort clause is compiled against a list of its
  own that is thrown away, so its placeholders read the first arguments, whatever their names
  (`FieldExample`). `PositionsMeanNamesIff` is the exact condition for all texts together,
  `SharedAlignedIff` and `OwnAlignedIff` say what it means for each kind.
- A second having condition replaces the first, but the first one's placeholders still need values
  (`GivenNamesRemain`).
- A limit of 2^31 or more does not survive the prepared path (`LimitTurnsNegative`), and a misplaced
  placeholder position can read the limit as its value (`PlaceholderReadsLimit`);
  `PreparedMeansPlainIff` and, with the limit's arguments, `PositionsMeanNamesIff` are the exact
  conditions.
- A statement whose first call left a placeholder unbound, or whose Prepare request was lost, stays
  with the client and is never prepared again (`StuckIff`). The flag `delivered_ps` of a new statement
  is not initialised; the parameter `junk` stands for its value. If it was false, every later call on
  that statement sends nothing as long as prepared statements are supported (`BlockedIff`); if it was
  true, they execute a statement the server does not have (`MisdirectedIff`). Both happen
  (`MissingBindStrands`, `LostPrepareIsExecuted`).
- In plain mode repeated executions append to the arguments of the earlier ones (`PlainTwice`), and
  after a fall back they keep the first ones whatever is bound later (`StaleAfterFallBack`);
  `PlainCarriesBindingsIff` is the exact condition.
- A slot freed by a broken connection, by pruning or by closing wakes nobody. The free slots beside a
  waiting getter are exactly those freed so and not filled since (`FullWhileWaiting`); a getter can be
  left sleeping beside an empty pool (`StrandedWaiter`), and then waits until another thread opens a
  connection (`StrandedUntilConnect`).
- An active connection is in nobody's hands if and only if `reset` threw when it was taken off the
  queue (`LeakedIff`). Its slot is lost until the pool is closed (`LeakedUntilClosed`); a pool that has
  lost all its slots hands out nothing (`LeakedPoolIsDead`).
- Closing the pool stops at the first connection whose close throws; what was not cleared by then
  stays in the pool (`PooledSessions.ConnectionPool.Close`).
- Pruning drops the expired prefix of the queue, which is all expired connections only while the
  clock does not go back (`BackwardClockDefeatsPrune`, `PrefixEraseIsFilter`).
- The row cursor belongs to the result. A loop over the same result inside another one lets the outer
  one go on with its next row if and only if it is left on the row the outer one stands on
  (`SharedCursorIff`, `NestedForeach`).
- Object and array values become expressions without the required type tag (`InitializedIff`).

## Modelling decisions

- Whether connecting, `reset` and closing fail, the server's replies, the clock and the scheduler are
  parameters of the steps and methods, so every statement holds for all of them.
- A thread that leaves the condition variable, notified, by timeout or spuriously, rechecks under
  the mutex as a separate step; other threads may come in between.
- Serialised protobuf messages are compared as messages.
- Reading past the end of a payload is undefined in the source; `Extract` reports it as `overrun`.
- The length field is stored in the machine's byte order by the source; the model is little-endian.
- `toupper` is that of the C locale.

## Model

| member | source | states |
|---|---|---|
| PoolModel.FirstUnexpired | mysqlx_client.cc:310-318 | everything in front of the found position has expired, what stands there has not |
| PoolModel.PrefixEraseIsFilter | mysqlx_client.cc:310-318 | erasing the expired prefix equals filtering out all expired connections iff no expired one stands behind an unexpired one |
| PoolModel.SortedPruneIsFilter | mysqlx_client.cc:310-318 | on a queue sorted by expiry the prefix erase removes exactly the expired connections |
| PoolProtocol.Safety | mysqlx_client.cc:288-448 | in every state of every interleaving: active and idle disjoint, capacity respected, each live handle owns a physical connection that no other handle owns, life cycle, wakeups, slot accounting and FIFO order |
| PoolProtocol.BoundedStep | mysqlx_client.cc:332-337 | every step keeps active plus idle within the maximum size, so the assertion in is_full never fires |
| PoolProtocol.OwnedStep | mysqlx_client.cc:364-397 | every step keeps one physical connection per live handle, also when release moves it into a fresh handle |
| PoolProtocol.LifeCycleStep | mysqlx_client.cc:364-448 | every step keeps retired handles out and hands out each handle at most once |
| PoolProtocol.NoLostWakeupStep | mysqlx_client.cc:373-416 | every step keeps: while a getter sleeps, there are at most as many idle connections as woken getters that have not rechecked |
| PoolProtocol.FifoStep | mysqlx_client.cc:301-328 | the history of pushed connections is the history of those taken off the front followed by the queue |
| PoolProtocol.ReleasedForGood | mysqlx_client.cc:436-448 | once released, a handle is never live again and later releases of it change nothing |
| PoolProtocol.GetterGoesOn | mysqlx_client.cc:288-299 | which of taking, connecting and waiting a getter can do, by the numbers of idle and active connections alone |
| PoolProtocol.GetReturns | mysqlx_client.cc:288-299 | a getter gets the front of the queue, a handle never seen before, or waits |
| PoolProtocol.ReleaseKeepsConnection | mysqlx_client.cc:364-379 | the back of the queue owns the very connection that was released, and the released handle none |
| PoolProtocol.BrokenIff | mysqlx_client.cc:344-348 | a handle counts as broken exactly once it broke |
| PoolProtocol.BrokenIsDropped | mysqlx_client.cc:436-448 | releasing a broken connection frees its slot, leaves the queue and wakes nobody |
| PoolProtocol.ConnectionsOpened | mysqlx_client.cc:350-387 | as many physical connections as successful connects: releasing and taking make none |
| PoolProtocol.ExclusiveUse | mysqlx_client.cc:364-397 | two handles in the hands of clients never share a physical connection, and no handle is handed out twice |
| PoolProtocol.IdleConnectionIsClaimed | mysqlx_client.cc:373-416 | when somebody sleeps and a connection is idle, some woken getter is about to take the front one |
| PoolProtocol.WaitEndsWithConnection | mysqlx_client.cc:399-416 | a waiting getter leaves only by its own recheck, with a connection or after the queue timeout |
| PoolProtocol.RecheckEndsWait | mysqlx_client.cc:399-416 | after a recheck the getter still waits iff there was no idle connection and its last wakeup was not the queue timeout |
| PoolProtocol.LastWakeup | mysqlx_client.cc:409-416 | every woken getter has such a last wakeup |
| PoolProtocol.FullWhileWaiting | mysqlx_client.cc:399-448 | while somebody waits, the free slots are exactly those freed without a notification and not filled since; full iff there are none |
| PoolProtocol.SleepsUntilWoken | mysqlx_client.cc:373-416 | a sleeping getter stays asleep until it times out or wakes spuriously, or the release of an unbroken active connection notifies it |
| PoolProtocol.StrandedUntilConnect | mysqlx_client.cc:288-299 | without a queue timeout, a getter at an empty pool waits and nothing is handed out until some thread opens a connection |
| PoolProtocol.StrandedWaiter | mysqlx_client.cc:436-448 | a reachable state in which a getter sleeps beside an empty pool and nobody is woken |
| PoolProtocol.ActiveUntilFreed | mysqlx_client.cc:436-448 | an active handle keeps its slot exactly until it is released or the pool is closed |
| PoolProtocol.ThrowingResetLeaksSlot | mysqlx_client.cc:389-405 | a throwing reset, with or without a wait before, leaves an active handle that no client has received |
| PoolProtocol.LeakedIff | mysqlx_client.cc:389-405 | in every state of every interleaving an active handle is in nobody's hands iff reset threw when it was taken off the queue |
| PoolProtocol.LeakedUntilClosed | mysqlx_client.cc:389-448 | when clients release only what they received, a lost slot stays lost until the pool is closed |
| PoolProtocol.LeakedPoolIsDead | mysqlx_client.cc:288-299 | a pool with as many lost slots as its maximum size hands out nothing until it is closed |
| PoolProtocol.LeakedPoolReached | mysqlx_client.cc:389-397 | a run of clients that release only what they received, after which a pool of size one has lost its slot |
| PoolProtocol.AlwaysSorted | mysqlx_client.cc:198-209 | with a clock that never goes back the idle queue is sorted by expiry in every state |
| PoolProtocol.PruneFiltersExpired | mysqlx_client.cc:301-321 | with such a clock a due prune leaves exactly the unexpired connections |
| PoolProtocol.PruneHappens | mysqlx_client.cc:301-321 | a prune more than the maximum idle time after all earlier ones leaves exactly the unexpired connections |
| PoolProtocol.PruneKeepsUnexpired | mysqlx_client.cc:301-321 | with any clock no unexpired connection is pruned |
| PoolProtocol.PrunedAfterMaxIdle | mysqlx_client.cc:198-209 | a connection is pruned no earlier than the maximum idle time after its release |
| PoolProtocol.PrunesApart | mysqlx_client.cc:307-320 | two effective prunes are more than the maximum idle time apart, whatever the clock |
| PoolProtocol.BackwardClockDefeatsPrune | mysqlx_client.cc:301-321 | a reachable state in which a due prune keeps an expired connection |
| PooledSessions.ConnectionPool.IsFull | mysqlx_client.cc:332-337 | the assertion holds; true exactly at capacity |
| PooledSessions.ConnectionPool.AddNewConnection | mysqlx_client.cc:350-387 | a fresh active session with its own connection, or nothing changed when connecting fails |
| PooledSessions.ConnectionPool.PopIdleConnection | mysqlx_client.cc:389-397 | the front session becomes active, also when reset throws |
| PooledSessions.ConnectionPool.GetConnection | mysqlx_client.cc:288-299 | which of idle, new, wait happens, and the pool after it |
| PooledSessions.ConnectionPool.CreateIdleConnection | mysqlx_client.cc:364-371 | the physical connection moves into a fresh session and the old one is closed and no longer pooled |
| PooledSessions.ConnectionPool.PushIdleConnection | mysqlx_client.cc:373-379 | the moved connection joins the back of the queue with its expiry; ownership stays unique |
| PooledSessions.ConnectionPool.OnClose | mysqlx_client.cc:436-448 | unknown sessions are ignored, broken ones dropped, others replaced at the back of the queue |
| PooledSessions.ConnectionPool.PruneExpiredConnections | mysqlx_client.cc:301-321 | after the next prune time the expired prefix is gone and the next prune time is set; before it nothing changes |
| PooledSessions.ConnectionPool.Close | mysqlx_client.cc:323-328 | every session is closed and the pool is empty, unless closing one throws: then the part it belongs to is not cleared |
| PooledSessions.CloseSessions | mysqlx_client.cc:420-434 | throws iff closing some session that is still open throws; else all are closed |
| PooledSessions.OneOwner | mysqlx_client.cc:364-397 | two sessions of a valid pool with the same physical connection are the same session |
| PooledSessions.CloseConnection | mysqlx_session.cc:108-118 | the pool after closing a session: unchanged if it was not active, else without it, and with its connection under a fresh handle at the back of the queue unless it broke |
| PooledSessions.CloseRepeatedly | mysqlx_session.cc:108-118 | any number of closes leaves the pool exactly as one close does |
| Placeholders.CompiledAgrees | xmysqlnd/crud_parsers/mysqlx_crud_parser.cc:29-56 | a compiled expression read by position equals its source read by name iff each occurrence finds its value at the index it was appended at |
| Placeholders.ReadRightIff | xmysqlnd/crud_parsers/mysqlx_crud_parser.cc:29-56 | one expression compiled against any list is read correctly for all values iff each occurrence stands where the final list of names has it |
| Placeholders.MisalignedMisread | xmysqlnd/crud_parsers/mysqlx_crud_parser.cc:29-56 | otherwise some choice of values is misread |
| OperationTexts.PositionsMeanNamesIff | xmysqlnd/xmysqlnd_crud_collection_commands.cc:57-161 | for all texts of an operation and those of them that are sent, with any further arguments: positions mean names for all values iff every one is aligned with the final list of names |
| OperationTexts.SharedAlignedIff | xmysqlnd/xmysqlnd_crud_collection_commands.cc:150-161 | a condition, grouping or value is aligned iff it uses no name twice and none met before |
| OperationTexts.OwnAlignedIff | xmysqlnd/crud_parsers/mysqlx_crud_parser.h:227-300 | a field or sort clause is aligned iff it uses the operation's names in their order from the first on, and behind them only names without a value |
| OperationTexts.SharedPositionsMeanNamesIff | xmysqlnd/xmysqlnd_crud_collection_commands.cc:57-161 | without fields and sort clauses: iff no placeholder name occurs twice |
| OperationTexts.RepeatedNameExample | xmysqlnd/crud_parsers/mysqlx_crud_parser.cc:29-34 | a concrete operation whose second use of a name reads nothing |
| OperationTexts.FieldExample | xmysqlnd/crud_parsers/mysqlx_crud_parser.h:227-300 | a field that is read correctly, and one that reads the value of another placeholder |
| Bindings.Bindings.FindVariable | xmysqlnd/xmysqlnd_crud_collection_commands.cc:139-146 | finds a variable of that name iff there is one |
| Bindings.Bindings.AddPlaceholders | xmysqlnd/xmysqlnd_crud_collection_commands.cc:57-70 | names stay distinct, known ones keep their value, new ones are appended unbound |
| Bindings.Bindings.GetPlaceholders | xmysqlnd/xmysqlnd_crud_collection_commands.cc:72-79 | the names in argument order |
| Bindings.Bindings.ParseExpression | xmysqlnd/xmysqlnd_crud_collection_commands.cc:150-161 | the stored expression and the variables after parsing |
| Bindings.Bindings.Bind | xmysqlnd/xmysqlnd_crud_collection_commands.cc:81-105 | succeeds iff the name is known and changes that variable only |
| Bindings.Bindings.Finalize | xmysqlnd/xmysqlnd_crud_collection_commands.cc:107-124 | appends the values up to the first unbound placeholder and throws iff there is one |
| Bindings.HistoryMeaning | xmysqlnd/xmysqlnd_crud_collection_commands.cc:57-161 | for any order of texts and bindings: the message holds the texts compiled against their lists, a later having condition in place of the earlier, and each variable has its last bound value |
| Bindings.GivenNamesRemain | xmysqlnd/xmysqlnd_crud_collection_commands.cc:755-770 | the names of every condition stay among the placeholders, also when it was replaced |
| Bindings.FinalisedArgsMeanBindings | xmysqlnd/xmysqlnd_crud_collection_commands.cc:57-161 | for every complete history with aligned texts, what is sent, read over the finalised arguments and whatever follows them, equals what the user wrote over the user's bindings |
| PreparedMeaning.Int32 | xmysqlnd/xmysqlnd_stmt.cc:930-935 | the cast of a limit to a signed 32-bit argument |
| PreparedMeaning.PreparedMeansPlainIff | xmysqlnd/xmysqlnd_stmt.cc:900-946 | an execution means the plain request iff the limits are below 2^31 and no placeholder reads the limit's slots |
| PreparedMeaning.PreparedMeansBindings | xmysqlnd/xmysqlnd_stmt.cc:900-946 | prepared path, plain path and named bindings mean the same for every such history |
| PreparedMeaning.PlaceholderReadsLimit | xmysqlnd/xmysqlnd_stmt.cc:930-935 | an operation that uses a name twice, whose second use reads the limit when prepared |
| PreparedMeaning.LimitTurnsNegative | xmysqlnd/xmysqlnd_stmt.cc:930-935 | an operation whose limit of 2^31 rows becomes negative when prepared |
| StatementModel.ValidNext | xmysqlnd/xmysqlnd_stmt.h:356-395 | every call keeps ids positive, unshared and not reused, and what the server has under an id is that statement |
| StatementModel.OthersKept | xmysqlnd/xmysqlnd_collection.cc:240-396 | a call leaves the statements of other operations alone |
| StatementModel.SendsIff | xmysqlnd/xmysqlnd_collection.cc:240-396 | exactly when a complete call sends nothing, and exactly when its executions name the server's statement |
| StatementModel.PlainSentIff | xmysqlnd/xmysqlnd_collection.cc:365-373 | without prepared statements: the plain request is sent, and gives a statement, iff the placeholders are bound or finalised and the limit is not an offset alone |
| StatementModel.PreparedSentIff | xmysqlnd/xmysqlnd_collection.cc:265-291 | with prepared statements: exactly when a Prepare, an execution and a fall back request are sent and a statement results, by the reply, the flag, the kind and the limit |
| StatementModel.SupportEndsIff | xmysqlnd/xmysqlnd_stmt.cc:1020-1040 | support ends exactly with error 1047 in answer to a Prepare request |
| StatementModel.SupportNeverReturns | xmysqlnd/xmysqlnd_stmt.cc:1020-1040 | once off, support for prepared statements stays off for the session |
| StatementModel.StuckIff | xmysqlnd/xmysqlnd_collection.cc:265-280 | over every session: a statement is on the client and not on the server iff some earlier call left it so, with the flag of that call |
| StatementModel.BlockedIff | xmysqlnd/xmysqlnd_collection.cc:282-291 | over every session: a complete call sends nothing iff an earlier call stranded its statement with the flag false |
| StatementModel.MisdirectedIff | xmysqlnd/xmysqlnd_collection.cc:282-291 | over every session: a call executes a statement the server does not have iff its statement was stranded with the flag true |
| StatementModel.FallBackIsDirect | xmysqlnd/xmysqlnd_collection.cc:274-280 | after error 1047 the call sends what a session without prepared statements sends |
| StatementModel.PlainCarriesBindings | xmysqlnd/xmysqlnd_collection.cc:250-264 | a plain request of an operation not executed before carries exactly the bound values, each once |
| StatementModel.PlainCarriesBindingsIff | xmysqlnd/xmysqlnd_collection.cc:250-264 | without prepared statements: it carries exactly the bound values iff the operation had no arguments, or was finalised before with these values |
| StatementModel.ExecutionMeansPlainIff | xmysqlnd/xmysqlnd_collection.cc:282-291 | an execution means the plain request iff the limits fit and no placeholder reads them |
| StatementModel.RequestMeansBindings | xmysqlnd/xmysqlnd_collection.cc:240-396 | whichever path a call takes, its request means the user's texts with the values bound by name |
| PreparedStatements.Session.IsBindFinalized | xmysqlnd/xmysqlnd_stmt.cc:998-1005 | true iff a statement of that id was recorded as finalised |
| PreparedStatements.Session.AddMessage | xmysqlnd/xmysqlnd_stmt.h:356-395 | arguments cleared; the template's entry found, or added under a new id with the flag uninitialised; the limit refreshed |
| PreparedStatements.Session.SetFinalizedBind | xmysqlnd/xmysqlnd_stmt.cc:1007-1018 | exactly that statement is recorded as finalised |
| PreparedStatements.Session.SendPrepare | xmysqlnd/xmysqlnd_stmt.cc:829-879 | what each reply of the server does to the statements, the support flag and the result |
| PreparedStatements.Session.RunPlain | xmysqlnd/xmysqlnd_collection.cc:250-264 | the arguments sent without prepared statements, and when nothing is sent |
| PreparedStatements.Session.Begin | xmysqlnd/xmysqlnd_collection.cc:265-271 | the message carries exactly the bound values; the statement is finalised and remembered iff all placeholders have one |
| PreparedStatements.Session.Start | xmysqlnd/xmysqlnd_collection.cc:265-280 | the prepared path up to the execution or the fall back: the client's statements after the call, the requests so far and those still to come |
| PreparedStatements.Session.SendExecute | xmysqlnd/xmysqlnd_collection.cc:282-291 | one execution with the bound values and limits, only of a delivered statement |
| PreparedStatements.Session.Attempt | xmysqlnd/xmysqlnd_collection.cc:240-396 | the recursion ends; the exact list of requests, final arguments, outcome and statements of a call |
| PreparedStatements.Session.Run | xmysqlnd/xmysqlnd_collection.cc:240-396 | the same for a call by the user, keeping the session's invariant |
| PreparedStatements.MissingBindStrands | xmysqlnd/xmysqlnd_collection.cc:265-273 | after an unbound execution, binding and executing again sends nothing, or an execution the server cannot know |
| PreparedStatements.LostPrepareIsExecuted | xmysqlnd/xmysqlnd_stmt.h:193-213 | with the flag true, a statement whose Prepare request was lost is executed |
| PreparedStatements.PlainTwice | xmysqlnd/xmysqlnd_collection.cc:250-254 | a second plain execution sends the values twice; both requests are equal iff there are none |
| PreparedStatements.StaleAfterFallBack | xmysqlnd/xmysqlnd_collection.cc:250-254 | after a fall back a later binding is never sent |
| FrameCodec.SplitFrame | xmysqlnd/xmysqlnd_compression.cc:153-174 | a frame read from a payload composes back to the bytes it was read from |
| FrameCodec.LengthIsWeighed | xmysqlnd/xmysqlnd_compression.cc:89-94 | the byte at index i of a length weighs 256 to the power of i, both written and read |
| FrameCodec.ShortFrame | xmysqlnd/xmysqlnd_compression.cc:153-174 | the bytes 2, 0, 0, 0, type, p are extracted to one message |
| FrameCodec.ParseComposed | xmysqlnd/xmysqlnd_compression.cc:71-174 | extracting the frames of a list returns the list |
| FrameCodec.ParseIsSound | xmysqlnd/xmysqlnd_compression.cc:139-174 | what is extracted composes back to the whole payload |
| FrameCodec.ParseIff | xmysqlnd/xmysqlnd_compression.cc:71-174 | extraction gives a list iff the payload is its frames and every size fits |
| FrameCodec.UniqueDecomposition | xmysqlnd/xmysqlnd_compression.cc:139-174 | no payload has two decompositions into frames |
| FrameCodec.Compose | xmysqlnd/xmysqlnd_compression.cc:71-110 | the buffer holds exactly the frame, with the length modulo 2^32 |
| FrameCodec.ReadFrame | xmysqlnd/xmysqlnd_compression.cc:153-174 | reads the frame at a position, or finds that it would pass the end |
| FrameCodec.Extract | xmysqlnd/xmysqlnd_compression.cc:139-151 | terminates, passes the end iff the payload is malformed, otherwise appends all its messages |
| CompressionExecutor.Executor.Reset | xmysqlnd/xmysqlnd_compression.cc:200-235 | installs the compressor of the configuration; throws iff it is not compiled in |
| CompressionExecutor.Executor.CompressMessage | xmysqlnd/xmysqlnd_compression.cc:239-251 | compresses the frame of the message and reports its size |
| CompressionExecutor.Executor.DecompressMessages | xmysqlnd/xmysqlnd_compression.cc:253-259 | appends the messages of the decompressed payload |
| CompressionExecutor.RoundTrip | xmysqlnd/xmysqlnd_compression.cc:239-259 | through a lossless compressor a message comes back iff its size fits |
| CompressionExecutor.ReceiveBatch | xmysqlnd/xmysqlnd_compression.cc:253-259 | a compressed batch comes back message by message |
| CompressionExecutor.SetUp | xmysqlnd/xmysqlnd_session.cc:1678-1690 | every negotiated configuration is installable; required means enabled, disabled means off |
| CaseInsensitive.Transitive | util/string_utils.h:31-59 | the case-insensitive order is transitive |
| CaseInsensitive.Irreflexive | util/string_utils.h:31-59 | no string is below itself |
| CaseInsensitive.Asymmetric | util/string_utils.h:31-59 | no two strings are below each other |
| CaseInsensitive.IncomparableIff | util/string_utils.h:31-59 | incomparable iff of equal length and at each index the same character or the two cases of one Latin letter |
| CaseInsensitive.LessIff | util/string_utils.h:31-59 | below iff equal up to case up to some index, where the first ends or has the smaller upper-case character |
| CaseInsensitive.IncomparableIsTransitive | util/string_utils.h:31-59 | being incomparable is transitive, which makes the order a strict weak one |
| CaseInsensitive.LookupFinds | util/string_utils.h:31-59 | a map ordered this way finds the entry whose key equals the name up to case |
| CaseInsensitive.LookupMisses | util/string_utils.h:31-59 | and finds none if there is no such key |
| CompressionSetup.ToAlgorithmIff | xmysqlnd/xmysqlnd_compression_setup.cc:56-73 | which of the eight names, in any case, stands for which algorithm, and no others |
| CompressionSetup.WireNameRoundTrip | xmysqlnd/xmysqlnd_compression_setup.cc:215-224 | the name in a request is read back as the same algorithm |
| CompressionSetup.ToAlgorithms | xmysqlnd/xmysqlnd_compression_setup.cc:75-85 | the recognised algorithms in the client's order |
| CompressionSetup.RecognisedAt | xmysqlnd/xmysqlnd_compression_setup.cc:75-85 | they stand at increasing indices of the list, exactly those of recognised names |
| CompressionSetup.RecognisedIff | xmysqlnd/xmysqlnd_compression_setup.cc:75-85 | an algorithm is among them iff some name of the list stands for it |
| CompressionSetup.GatherCapabilities | xmysqlnd/xmysqlnd_compression_setup.cc:120-151 | the recognised algorithms the server advertises; false iff there are none |
| CompressionSetup.SupportedIff | xmysqlnd/xmysqlnd_compression_setup.cc:120-151 | an algorithm is supported iff the capabilities have that shape and their list one of its names |
| CompressionSetup.Negotiate | xmysqlnd/xmysqlnd_compression_setup.cc:321-356 | choices are asked for in order and each earlier one was refused; only what client, server and build have in common is asked for, and all of it before giving up |
| CompressionSetup.AskedInOrder | xmysqlnd/xmysqlnd_compression_setup.cc:321-335 | the requests stand at increasing indices of the client's list, exactly those of what the server advertises and the build has |
| CompressionSetup.AskedIff | xmysqlnd/xmysqlnd_compression_setup.cc:321-335 | an algorithm was asked for iff it is in the client's list so far, advertised and available |
| CompressionSetup.SearchIsDetermined | xmysqlnd/xmysqlnd_compression_setup.cc:321-356 | list, capabilities, answers and build determine the requests and the end of the search |
| CompressionSetup.RequiredLz4 | xmysqlnd/xmysqlnd_compression_setup.cc:274-295 | a client that requires "LZ4" and a server that takes lz4_message agree after one request |
| CompressionSetup.Setup.Run | xmysqlnd/xmysqlnd_compression_setup.cc:274-295 | the condition behind every outcome: an algorithm, none, each error, a server error |
| RowIterator.Iterator.Next | mysqlx_row_result_iterator.cc:101-117 | the state after next |
| RowIterator.Iterator.Rewind | mysqlx_row_result_iterator.cc:119-139 | the state after rewind |
| RowIterator.Foreach | mysqlx_row_result_iterator.cc:61-139 | every row once, in order, with its index as number, and the iterator is spent |
| RowIterator.SharedCursorIff | xmysqlnd/xmysqlnd_rowset_buffered.cc:44-55 | whatever others do to the cursor, the next step goes as it would have iff they put it back, and ends on the named row iff there also is a next one |
| RowIterator.ForeachUntil | mysqlx_row_result_iterator.cc:61-139 | a loop left on a row has seen all rows up to it and leaves the cursor there |
| RowIterator.NestedForeach | mysqlx_row_result_iterator.cc:61-139 | on any row of the outer loop: it goes on with its next row iff the inner loop was left on that row; a complete inner loop ends it |
| RowIterator.UnusableForGood | mysqlx_row_result_iterator.cc:101-139 | after any calls, an unusable iterator stays as it is |
| RowIterator.StandsOnItsRow | mysqlx_row_result_iterator.cc:81-139 | after any calls, a usable started iterator holds the row its number names |
| AnyToExpr.Any2Expr | xmysqlnd/xmysqlnd_any2expr.cc:59-83 | the translation into a given expression, loops included |
| AnyToExpr.ReadBackFill | xmysqlnd/xmysqlnd_any2expr.cc:31-83 | every value is recovered from its expression |
| AnyToExpr.InitializedIff | xmysqlnd/xmysqlnd_any2expr.cc:59-83 | the expression is a complete message iff the value is a scalar |
| Identifiers.EscapeIdentifier | util/string_utils.cc:61-74 | the quoted form |
| Identifiers.QuotedIsRead | util/string_utils.cc:61-74 | the server's scanner reads back the name and what follows |
| Identifiers.QuotingIsInjective | util/string_utils.cc:61-74 | different names have different quoted forms |
| Identifiers.SavepointNames.SetSavepoint | mysqlx_session.cc:556-594 | the statement names exactly the given or generated savepoint |
| Identifiers.RollbackTo | mysqlx_session.cc:596-626 | the statement names exactly the given savepoint |
| Identifiers.ReleaseSavepoint | mysqlx_session.cc:628-658 | the statement names exactly the given savepoint |
| Identifiers.GeneratedNamesDiffer | mysqlx_session.cc:547-554 | different seeds generate different names |
| Splitting.SingleSeparatorSplit | util/strings.cc:32-53 | appends separator-free tokens whose join is the input; an empty input appends nothing |
| Splitting.TokenCount | util/strings.cc:32-53 | one token more than there are separators |
| Splitting.SplitIsUnique | util/strings.cc:32-53 | no other separator-free list joins to the input |

## Left out

- Zend and PHP glue: class registration, argument parsing, property tables, exception texts and reference counts have no hard property of their own.
- Network, protobuf serialisation, connecting and authentication: input and output; they appear as parameters.
- The lz4, zlib and zstd compressors: an abstract compressor stands for them, without the state that streaming ones keep between payloads.
- The expression grammar: parsing starts from the expression tree; only what it does to placeholders is modelled.
- The branch of `set_fields` without aliases, which parses a field twice: no caller takes it.
- Table operations: they keep their own lists of placeholders and values.
- Pools with pooling disabled, client options and the map from URIs to pools: flat branching.
- Client_state_manager::prune_expired_connections: it walks the map of pools without that map's mutex, so only the prune of one pool is modelled.
- The 32-bit wrap of statement ids: ids are unbounded in the model.
- Update in place of expression messages: `AnyToExpr` passes the destination as a value.
- Values of unknown type in any2expr: they leave the destination as it is.
- Forward-only results: only buffered ones can be rewound.
- The `combine_mixed_messages` and `max_combine_messages` settings of a negotiated configuration: they are sent along and not used by the client.
