# Mini Redis: verified model

A Dafny model of the Mini Redis server: its hash table, its store with lazy expiry, its crash
recovery from a snapshot and an append-only log, its RESP request pipeline, and its key sharding.
Objects that the source changes in place are classes with the same fields; each of their methods is
proved equal to a function of its inputs and the old state, and the laws below are proved about
those functions, for all inputs and for whole runs.

| file | models |
|---|---|
| `HashTable.dfy`, `TableRuns.dfy` | the chained hash table, and runs of operations on it |
| `Stores.dfy`, `Expiration.dfy`, `InMemory.dfy` | values and deadlines in two tables, lazy eviction |
| `ClockReadings.dfy` | the loops of snapshot and load, which read the clock once for every key |
| `EagerMap.dfy` | the reference: a map that drops lapsed keys before every command |
| `Files.dfy`, `AppendLog.dfy`, `ReplayLaws.dfy` | the two files, the log, replay, and what logs mean key by key |
| `Persistence.dfy`, `Recovery.dfy`, `Accounts.dfy` | the snapshot and its manager, the crash model, and what it shows of every key |
| `Bytes.dfy`, `Utf8.dfy`, `Decimal.dfy`, `Resp.dfy`, `Replies.dfy` | requests and replies on the wire, both directions |
| `Faults.dfy`, `ReplyGrammar.dfy` | which texts are incomplete and which faulty, for both readers |
| `Routing.dfy`, `Dispatching.dfy`, `Server.dfy` | node ownership, the dispatcher, the connection loop |
| `Pipeline.dfy`, `Clients.dfy`, `Connections.dfy`, `Sharding.dfy` | a session end to end, many clients at once, several servers as one |
| `Manual.dfy` | the command reference in bytes, to which the server is proved to keep |
| `MovingClock.dfy` | the crash model with a clock that moves inside commands, saves and restarts |

Conventions.

- Time is an exact real number that never goes back. The classes, up to the dispatcher, are given a
  reading for each time the source reads the clock. The connection loop, sessions and clients, and module
  `Recovery`, use one reading for each command; `Dispatching.DispatchAtOneReading` and
  `MovingClock.StillClockIsRecovery` show that this is the case of a clock that stands still inside a
  command, and `MovingClock.DurableWhileTheClockMovesIff` says exactly what any other clock changes.
- A Python `str` is represented by its UTF-8 encoding, and a byte by the character with its number.
- Exceptions are results: the store never assumes that a deadline has a key, it reports the
  `KeyError`, and tidy stores (every deadline belongs to a stored key) are proved never to raise.
- `Visible(store, key, now)` is what a client can see of a key, with its deadline; `ShowSame` compares
  two stores by it.

The main results, hardest first:

1. `Recovery.AcknowledgedWritesSurvive`: over every run of commands, saves, clock ticks, crashes between
   any two steps and restarts, memory shows of a key exactly the acknowledged writes and at most one
   in flight, provided no restart found that key freshly lapsed. `Recovery.KeysWithoutDeadlinesSurvive`
   drops the proviso for keys that never got an EXPIRE, `Recovery.FilesMatchMemory` needs none, and
   `Recovery.RestartKeepsAckedIff` and `Recovery.RestartShowsTheSameIff` are the exact conditions under
   which a restart keeps the writes to a key, and is invisible. `Pipeline.RepliesAcknowledge` ties
   "acknowledged" to the reply a client reads, and `Clients.ConfirmedWritesSurviveAllCrashes` states the
   same durability of the replies to any number of clients, over any number of lives of the server, each
   killed between any two changes of a file.
2. `MovingClock.DurableWhileTheClockMovesIff`: with all clock readings of the source, durability holds of a
   key if and only if no EXPIRE or TTL of it outlasts a deadline, no save straddles one, and no restart
   finds one lapsed. `MovingClock.OverwrittenNeverComesBack` needs no condition: a restart may revive a
   lapsed key, but never an overwritten or deleted value. `Accounts.AccountsAreRight` says what is shown of
   every key in every run, from the acknowledged writes and the times of saves and restarts alone.
3. `Clients.ClientsSeeOneEagerMap`, `Clients.ClientsDoNotMix`, `Clients.SchedulesAreRecoveryRuns`: any number
   of clients under any schedule see one map that purges eagerly, never each other's bytes, and every
   schedule is a run of the crash model. `Connections.RepliesInOrder` says what each of them is sent, in
   which order and until when, and `Connections.OneClientIsTheLoop` ties schedules to the connection loop.
4. `Manual.Session`: requests in any chunks, replies with any partial reads, give the transcript of the
   command reference byte for byte; `Manual.ServerFollowsTheManual` is the same of one command.
5. `ReplayLaws.StaleLogOverSnapshot`, by a three-case normal form of logs (`ReplayLaws.ReplayActs`).
6. `Resp.AcceptsExactlyTheGrammar`, `Faults.IncompleteIffBegun`, `Faults.MalformedIffFirstFault`: all
   answers of the request parser over one grammar; `Resp.VerdictsAreFinal`, `Server.ChunkingDoesNotMatter`
   and `Server.ChunkingNeverMattersIff`.
7. `Sharding.ClusterRefinesSingle`, `EagerMap.LazyRefinesEager`, `TableRuns.Run`.

Where the code and its documents differ, the code is modelled. docs/rdb.md:37 says that a key already
lapsed at load time is not restored. The code filters the deadlines before it looks for lapsed keys
(src/storage/expiration.py:59-63, src/storage/in_memory.py:71-73), so such a key comes back without
a deadline: `Recovery.LapsedKeysComeBack` is a run of the server that reaches this for any key,
`ReplayLaws.LapsedKeyReturns` says that it happens to the lapsed keys and no others, and
`ReplayLaws.LoadShowsTheSameIff` and `ReplayLaws.ReloadShowsTheSameIff` are the exact conditions for all keys.

## Model

| member | source | states |
|---|---|---|
| HashTables.HashTable.constructor | asd.py:16-23 | an initial list gives the dict that writing its pairs in order gives; at least 8 buckets |
| HashTables.HashTable.GetItem | asd.py:40-45 | the value of the key in the represented map, KeyError exactly for absent keys |
| HashTables.HashTable.SetItem | asd.py:47-58 | map update for any hash function; the capacity doubles exactly when a fresh key takes four times the size over three times the capacity; the load bound, at least 8 buckets and the resizing budget are kept; the mutual recursion with resizing ends |
| HashTables.HashTable.DelItem | asd.py:60-67 | the key is removed from the map, KeyError exactly when it was absent |
| HashTables.HashTable.Pop | asd.py:89-99 | removal returning the value; an absent key gives the default, and KeyError if the default is None |
| HashTables.HashTable.Clear | asd.py:101-103 | the map is empty and the capacity is 8 again |
| HashTables.HashTable.Items | asd.py:113-116 | iteration lists every item once; as a dict the list is the represented map |
| HashTables.HashTable.Update | asd.py:118-121 | writing all pairs in order |
| HashTables.HashTable.UpdateDict | asd.py:118-121 | with a dict as source, in whatever order its pairs come: the merge of both maps |
| HashTables.HashTable.Resize | asd.py:127-132 | re-inserting into new buckets keeps the map, never resizes again, and costs one move per entry |
| HashTables.HashTable.Reinsert | asd.py:131-132 | the loop of resizing: filling a table with room for all entries never resizes it |
| HashTables.KeysAreHomeAndUnique | asd.py:123-125 | every entry is in bucket hash mod capacity and no key is stored twice |
| HashTables.LoadLimit | asd.py:57-75 | the limit in whole numbers is a load factor above 0.75 |
| HashTables.HashTable.LoadStaysLow | asd.py:13-19 | between operations the load factor is at most 0.75, there are at least 8 buckets, and the size is the number of keys |
| TableRuns.Run | asd.py:40-132 | for every list of operations the replies and final items are those of a finite map, and resizing moves at most 3 entries per fresh insertion |
| Expiration.ExpirationManager.SetExpire | src/storage/expiration.py:14-18 | a positive number of seconds sets the deadline, others are refused |
| Expiration.ExpirationManager.IsExpired | src/storage/expiration.py:26-33 | true exactly for a deadline at or before now, which is then removed |
| Expiration.ExpirationManager.TtlOf | src/storage/expiration.py:35-47 | -2, -1 or whole seconds towards zero; a deadline a second or more past is dropped |
| Expiration.ExpirationManager.LoadAll | src/storage/expiration.py:57-63 | keeps exactly the deadlines that lie ahead |
| Expiration.ExpirationManager.GetExpireAt | src/storage/expiration.py:65-68 | the deadline if it lies ahead, else none, and a lapsed one is removed |
| Stores.RaisesExactlyOnDanglingDeadline | src/storage/in_memory.py:15-19 | a command raises KeyError if and only if it touches a lapsed deadline whose key is not stored |
| Stores.StepKeepsTidy | src/storage/in_memory.py:15-58 | if every deadline belongs to a stored key, no command raises and that stays so |
| Stores.StepActsOnItsKey | src/storage/in_memory.py:21-58 | each reply and the visible result depend only on what was visible of the command's key; other keys are untouched |
| Stores.SetPairShows | src/storage/in_memory.py:21-29 | what SET with and without an expiry leaves, for positive and non-positive seconds |
| Stores.ExpireAtReportsTheVisible | src/storage/in_memory.py:75-77 | the reported deadline is the visible one |
| Stores.SecondReadingDecides | src/storage/in_memory.py:48-58 | if the clock moves inside EXPIRE or TTL: the deadline counts from the second reading, and TTL answers by it, forgetting a deadline a second or more past |
| Stores.SameEntriesSameStore | src/storage/in_memory.py:11-13 | tidy stores are determined by their entries |
| EagerMap.ViewLater | src/storage/expiration.py:30-33 | looking later shows the earlier view without what lapsed in between |
| EagerMap.StepRefines | src/storage/in_memory.py:15-58 | one command answers as the map that purges lapsed keys first, and the views stay equal |
| EagerMap.LazyRefinesEager | src/storage/in_memory.py:15-58 | for every script under a non-decreasing clock all replies equal those of the purging map |
| InMemory.InMemoryStore.EvictIfExpired | src/storage/in_memory.py:15-19 | drops a lapsed key from both tables, or raises when only its deadline was there |
| InMemory.InMemoryStore.SetPair | src/storage/in_memory.py:21-29 | SET on both tables |
| InMemory.InMemoryStore.GetValue | src/storage/in_memory.py:31-33 | GET after eviction |
| InMemory.InMemoryStore.Remove | src/storage/in_memory.py:35-42 | DEL after eviction |
| InMemory.InMemoryStore.HasKey | src/storage/in_memory.py:44-46 | EXISTS after eviction |
| InMemory.InMemoryStore.ExpireIn | src/storage/in_memory.py:48-52 | EXPIRE after eviction, with its two clock readings |
| InMemory.InMemoryStore.TimeToLive | src/storage/in_memory.py:54-58 | TTL after eviction, with its two clock readings |
| InMemory.InMemoryStore.GetExpireAt | src/storage/in_memory.py:75-77 | the deadline after eviction, with its two clock readings |
| InMemory.InMemoryStore.Snapshot | src/storage/in_memory.py:63-66 | every key is visited once and judged by its own clock reading; the image is the rest with the deadlines ahead at one more reading |
| InMemory.InMemoryStore.LoadAll | src/storage/in_memory.py:68-73 | the tables become the image with the deadlines ahead at the first reading, then every key is visited once and judged by its own reading |
| ClockReadings.SweepAtOneReading | src/storage/in_memory.py:63-65 | visiting every key once, in any order, at one reading sweeps exactly the lapsed keys |
| ClockReadings.ImageAtOneReading | src/storage/in_memory.py:63-66 | at one reading the image is the one the laws of snapshots speak of |
| ClockReadings.LoadAtOneReading | src/storage/in_memory.py:68-73 | at one reading the final sweep of load() finds nothing |
| ClockReadings.SlowImageIsRightIff | src/storage/in_memory.py:63-66 | if the clock moves inside snapshot() the image is right as of its last reading if and only if no deadline falls between the reading for its key and the last |
| ClockReadings.SlowLoadAtKey | src/storage/in_memory.py:68-73 | if the clock moves inside load(): a key that lapsed at the first reading stays without a deadline, one that lapses before its own reading is gone, any other is as in the image |
| Files.Volume.ReplaceSnapshot | src/persistence/rdb.py:42-51 | one atomic change of the disk, remembered in its history |
| Files.Volume.AppendRecord | src/persistence/aof.py:40-41 | likewise for one record at the end of the log |
| Files.Volume.RemoveLog | src/persistence/aof.py:82-84 | likewise for deleting the log |
| AppendLog.AofPersistence.Append | src/persistence/aof.py:32-41 | the record is added at the end, the file created if needed |
| AppendLog.AofPersistence.Reset | src/persistence/aof.py:82-84 | the log is gone; the disk is touched only if there was one |
| AppendLog.AofPersistence.ReplayOver | src/persistence/aof.py:47-80 | the loop over the records is the fold of their meaning over the trimmed base |
| ReplayLaws.ReplayIsPerKey | src/persistence/aof.py:86-117 | the result for a key is the replay of the records of that key over the base's entry |
| ReplayLaws.ReplayActs | src/persistence/aof.py:86-117 | every log does one of three things to a key: nothing, a new deadline, or a fixed outcome |
| ReplayLaws.SameProjectionsSameState | src/persistence/aof.py:47-80 | logs with the same subsequence for every key give the same state over any base |
| ReplayLaws.IndependentOfBaseIffDecided | src/persistence/aof.py:95-117 | the result for a key is independent of the base if and only if the log sets or deletes it |
| ReplayLaws.ReplayIsIdempotent | src/persistence/aof.py:47-117 | replaying a log, or no log, over its own result changes nothing, whatever the base was |
| ReplayLaws.ReplayKeepsTidy | src/persistence/aof.py:86-117 | replay never leaves a deadline without a key |
| ReplayLaws.StaleLogOverSnapshot | src/persistence/manager.py:53-56 | a log that survived its snapshot is harmless: replayed over the live part of the loaded state it shows the same, now and later |
| ReplayLaws.StaleLogOverLivePart | src/persistence/manager.py:53-56 | the same without a restart in between, over any base |
| ReplayLaws.ImageIsTheVisiblePart | src/storage/in_memory.py:63-66 | a snapshot holds exactly what is visible, with its deadlines |
| ReplayLaws.ReloadShowsKeyIff | src/storage/expiration.py:57-63 | loading later shows the same of a key if and only if its deadline did not lapse in between; else the key is back without it |
| ReplayLaws.ReloadShowsTheSameIff | src/storage/expiration.py:57-63 | loading later shows the same as loading earlier if and only if no deadline lapsed in between |
| ReplayLaws.LoadShowsTheSameIff | src/storage/in_memory.py:68-73 | load keeps all values and exactly the deadlines ahead; it restores the view if and only if no stored key has lapsed |
| ReplayLaws.SnapshotThenLoad | src/storage/in_memory.py:63-73 | load after snapshot at one clock reading keeps the view, for good |
| ReplayLaws.LapsedKeyReturns | src/storage/in_memory.py:68-73 | a key that could not be seen is back after load if and only if it was stored and had lapsed, and then without a deadline, for good |
| Persistence.ExpireIsRecordedIff | src/persistence/manager.py:75-81 | with the four clock readings of one EXPIRE: recorded with its absolute deadline if and only if the last has not reached it; otherwise exactly what becomes of the key |
| Persistence.RdbPersistence.Save | src/persistence/rdb.py:30-52 | the snapshot file is replaced in one step |
| Persistence.PersistenceManager.Restore | src/persistence/manager.py:37-46 | memory becomes the replayed files as loaded, with a clock reading for every key; the files stay |
| Persistence.PersistenceManager.Snapshot | src/persistence/manager.py:53-63 | memory is swept, the snapshot is its image, with a clock reading for every key, the log is gone; the disk passes through the new snapshot with the old log, in this order |
| Persistence.PersistenceManager.RecordWrite | src/persistence/manager.py:65-83 | SET and DEL are appended as they are, EXPIRE with the deadline the store holds, in one change of the disk |
| Recovery.RecordMirrorsCommand | src/server/dispatcher.py:55-89 | replaying the record a command leaves shows what the command did; commands without a record show no change |
| Recovery.SaveShowsSame | src/persistence/manager.py:53-56 | between replacing the snapshot and removing the log, the files show the same |
| Recovery.StepKeepsInv | src/persistence/manager.py:37-83 | every step, a crash or restart at any point included, keeps files and memory in agreement and tidy |
| Recovery.RecordIsAsPromised | src/persistence/manager.py:65-83 | the record written is the one the reply promises; for EXPIRE the deadline read back is the clock reading plus the seconds |
| Recovery.StepKeepsAcked | src/persistence/manager.py:37-83 | no step makes the files forget an acknowledged write to a key, but a restart that finds the key freshly lapsed |
| Recovery.RestartKeepsAckedIff | src/persistence/manager.py:37-46 | a restart keeps the acknowledged writes to a key if and only if it does not find the key freshly lapsed |
| Recovery.TraceIsOfPrefixes | src/persistence/manager.py:53-83 | every state the disk passes through is where the run stood at some moment |
| Recovery.FilesMatchMemory | src/persistence/manager.py:37-83 | after every run from an agreeing state, with no condition on restarts, files and memory agree |
| Recovery.NoReachableStateRaises | src/storage/in_memory.py:15-19 | after every run from an empty disk, crashes and restarts included, no command raises KeyError |
| Recovery.AcknowledgedWritesSurvive | src/persistence/manager.py:37-83 | in every run, for every key that no restart finds freshly lapsed, memory shows exactly the acknowledged writes and at most one in flight, and the files the acknowledged ones |
| Recovery.KeysWithoutDeadlinesSurvive | src/persistence/manager.py:37-83 | the same in every run without any condition, for keys that got no acknowledged EXPIRE |
| Recovery.RepliesComeFromAcknowledgedWrites | src/server/dispatcher.py:21-49 | in such a run a command on the key is answered as the eager map of all acknowledged writes answers, whatever became of other keys |
| Recovery.RestartShowsTheSameIff | src/persistence/manager.py:37-46 | in any run, a crash and restart between commands is invisible if and only if no deadline on disk lapsed since the last restart |
| Recovery.RestoreIsRestart | src/persistence/manager.py:37-46 | what restore() leaves in memory, in whatever order it visits the keys, is what the restart step of the crash model leaves |
| Recovery.LapsedKeysComeBack | src/storage/in_memory.py:68-73 | for any key and deadline a run of SET, EXPIRE, a crash and a restart past the deadline brings the key back for good, while by the acknowledged writes it is gone |
| Accounts.AccountsAreRight | src/persistence/manager.py:37-83 | in every run, with no condition, what the files hold and memory shows of a key is the fold of its acknowledged writes with the times of saves and restarts, a log left stale by a crash inside a save included |
| Decimal.ReadIntOfStr | scripts/demo_client.py:8-14 | int(str(n)) is n for every integer |
| Decimal.StrIsDecimal | scripts/demo_client.py:8-14 | str(n) is the decimal numeral, digit by digit, with a minus sign for negative numbers |
| Decimal.ReadsExactlyTheIntegers | src/protocol/resp_parser.py:92-95 | int() gives n if and only if the text is white space, an optional sign, a well-placed digit string and white space, with n the signed positional value of the digits |
| Decimal.StrOfReadDigits | src/protocol/resp_parser.py:92-95 | printing what was read gives back every plain numeral |
| Resp.ParseOne | src/protocol/resp_parser.py:38-81 | the loop over the parts computes the parse function, with the same error for the same input |
| Resp.TakePart | src/protocol/resp_parser.py:53-79 | one round of that loop |
| Resp.EncodeCommand | scripts/demo_client.py:8-14 | the joined chunks are the printed request |
| Resp.AcceptsExactlyTheGrammar | src/protocol/resp_parser.py:38-97 | a command with its parts and length is returned if and only if the buffer starts with a text of the request grammar for those parts |
| Faults.IncompleteIffBegun | src/protocol/resp_parser.py:38-65 | the parser waits for more bytes if and only if the buffer is the beginning of a request: empty, a header without its CRLF, or good parts and the beginning of one more |
| Faults.MalformedIffFirstFault | src/protocol/resp_parser.py:38-97 | an error is reported if and only if it is the first fault in the buffer, one clause for each of the eight |
| Utf8.ValidIffText | src/protocol/resp_parser.py:73-77 | the bytes that decode are exactly the UTF-8 encodings of sequences of Unicode scalar values |
| Resp.VerdictsAreFinal | src/protocol/resp_parser.py:38-97 | a command or an error stays the same on every extension of the buffer |
| Resp.CommandsAreSelfDelimiting | src/protocol/resp_parser.py:38-97 | the consumed bytes alone give the same command, and every shorter prefix is incomplete |
| Resp.RequestRoundTrip | scripts/demo_client.py:8-14 | parsing a printed request gives its parts and its length, whatever follows |
| Resp.PrefixesOfRequestsAreIncomplete | src/protocol/resp_parser.py:53-65 | a strict prefix of a printed request is never an error |
| Replies.ReadEncodedReply | src/protocol/resp_encoder.py:11-42 | reading an encoded reply takes exactly its bytes, null bulks and values containing CRLF included |
| Replies.EncodingRoundTrip | src/protocol/resp_encoder.py:11-42 | the type and contents of every encodable reply can be recovered from its bytes |
| Replies.RecvExact | scripts/benchmark.py:44-53 | the asked-for bytes for every schedule of partial reads, an error exactly when the stream ends before |
| Replies.RecvUntilCrlf | scripts/benchmark.py:56-64 | the stream up to its first CRLF, an error exactly when there is none |
| Replies.RecvResp | scripts/benchmark.py:27-41 | one reply as a function of the stream alone, for every schedule of partial reads |
| ReplyGrammar.ReaderFollowsTheGrammar | scripts/benchmark.py:27-64 | a reply is taken if and only if the stream starts with one; each of the three errors has its exact condition |
| Replies.RecvAll | scripts/benchmark.py:27-64 | reading as many replies as were sent gives each encoding in order and leaves the rest |
| Dispatching.Dispatcher.DispatchPing | src/server/dispatcher.py:51-53 | arity, then PONG; nothing changes |
| Dispatching.Dispatcher.DispatchSet | src/server/dispatcher.py:55-59 | arity, then store, then log |
| Dispatching.Dispatcher.DispatchGet | src/server/dispatcher.py:61-63 | arity, then the value or a null bulk |
| Dispatching.Dispatcher.DispatchDel | src/server/dispatcher.py:65-70 | logged exactly when a key was deleted |
| Dispatching.Dispatcher.DispatchExists | src/server/dispatcher.py:72-74 | arity, then 0 or 1 |
| Dispatching.Dispatcher.DispatchExpire | src/server/dispatcher.py:76-89 | arity, integer and sign checks before the store; logged exactly when a deadline was set; with all four clock readings |
| Dispatching.ExpireIsRecorded | src/server/dispatcher.py:76-89 | if the clock does not move inside EXPIRE, the handler with its four readings is the dispatch function, which logs exactly when it replies 1 |
| Dispatching.Dispatcher.DispatchTtl | src/server/dispatcher.py:91-93 | arity, then the seconds left, with both clock readings |
| Dispatching.Dispatcher.DispatchSave | src/server/dispatcher.py:95-100 | refused without persistence, else a snapshot with a clock reading for every key |
| Dispatching.Dispatcher.RunCommand | src/server/dispatcher.py:21-49 | routing first, then the command by its normalised name; machine and reply equal the dispatch function with all its clock readings |
| Dispatching.DispatchAtOneReading | src/server/dispatcher.py:21-49 | if the clock does not move inside a command, in whatever order SAVE visits the keys, one reading stands for all |
| Dispatching.PaddingIsIgnored | src/core/command.py:11-12 | white space around a command name does not matter |
| Dispatching.NamesInAnyCase | src/server/dispatcher.py:30-45 | each command answers to its name in any mix of upper and lower case |
| Dispatching.CommandsByName | src/server/dispatcher.py:26-49 | a command is selected if and only if the name is one of the eight in any mix of cases, with any white space around it |
| Dispatching.RoutedByFirstArgument | src/core/command.py:21-26 | the routing key is the first argument, but PING and SAVE have none |
| Manual.ServerFollowsTheManual | src/server/dispatcher.py:21-117 | each command that the server carries out itself changes the map as its page says and is answered by exactly the bytes of its page, wrong arities, bad integers and unknown names included |
| Manual.UnknownCommandsChangeNothing | src/server/dispatcher.py:49-49 | any other name leaves memory and files alone and is answered by its own error |
| Manual.RaisesExactly | src/server/dispatcher.py:21-49 | the dispatcher raises if and only if a key has to be routed without nodes, or a command touches a deadline whose value is missing |
| Manual.RefusedByTheEncoder | src/protocol/resp_encoder.py:31-47 | the encoder refuses exactly simple strings and errors that contain CR or LF |
| Manual.RequestsOnTheWire | scripts/demo_client.py:8-14 | the bytes of PING and of GET k |
| Server.DrainMore | src/server/tcp_server.py:91-103 | bytes that arrive later continue where the buffer stopped, unless an error has wiped it |
| Server.ChunkingDoesNotMatter | src/server/tcp_server.py:85-103 | all chunkings of a stream give the same commands up to and including the first protocol error, and without one the same left-over bytes |
| Server.ChunkingNeverMattersIff | src/server/tcp_server.py:85-103 | all chunkings agree completely if and only if no error shows before the last byte |
| Server.ServeBuffer | src/server/tcp_server.py:91-103 | the inner loop answers every complete command in the buffer and ends |
| Server.HandleClient | src/server/tcp_server.py:79-113 | machine, bytes written and whether the connection stays open, as a function of the events of the chunks |
| Manual.FaultsAreAnswered | src/server/tcp_server.py:96-99 | a protocol error changes nothing and is answered by the bytes of its message |
| Manual.FaultsWipeTheBuffer | src/server/tcp_server.py:91-99 | a buffer with a fault at its front is wiped after one refusal, the beginning of a request is kept |
| Connections.ProcessSendsAnswers | src/server/tcp_server.py:101-113 | the loop sends the dispatcher's answers in order up to the first that fails or cannot be encoded, which is carried out, not sent, and closes the connection |
| Pipeline.EncoderRefusesExactly | src/protocol/resp_encoder.py:40-47 | a reply cannot be encoded if and only if it echoes CR or LF, from an unknown command's name or another node's host |
| Pipeline.DispatchTakesSteps | src/server/dispatcher.py:21-49 | every dispatched command is a run of steps of the crash model, and the files pass through the same states in the same order |
| Pipeline.RepliesAcknowledge | src/server/dispatcher.py:55-89 | the reply a client reads tells exactly which write, with which deadline, is acknowledged; a command without a reply acknowledges nothing |
| Pipeline.DispatchRefines | src/server/dispatcher.py:21-49 | one dispatched command answers as the server over the eager map |
| Pipeline.RequestsSurviveChunking | src/server/tcp_server.py:85-103 | printed requests in any chunks are seen as exactly these commands with nothing left over |
| Pipeline.ServesLikeTheEagerMap | src/server/tcp_server.py:85-113 | one reply for each command, equal to the eager map's, and the connection stays open |
| Pipeline.Session | src/server/tcp_server.py:79-113 | end to end through the loops of server and client: the i-th text read is the encoding of the eager map's i-th reply |
| Manual.RepliesFollowTheManual | src/server/dispatcher.py:21-117 | over a whole session the eager map's replies have the bytes of the command reference |
| Manual.Session | src/server/tcp_server.py:79-113 | end to end through the loops of server and client: the texts read are the transcript of the command reference, byte for byte |
| Clients.ClientsSeeOneEagerMap | src/server/tcp_server.py:79-113 | under every schedule of chunks, answers, clock ticks and periodic saves all connections have the replies of one eager map serving in that order |
| Clients.ClientsDoNotMix | src/server/tcp_server.py:81-103 | under every schedule each connection carries out the commands of its own bytes, up to its first protocol error |
| Connections.RepliesInOrder | src/server/tcp_server.py:79-113 | under every schedule a connection has received its own bytes in order, is sent its answers in the order of service, and is closed exactly by an answer that fails or cannot be encoded |
| Connections.OneClientIsTheLoop | src/server/tcp_server.py:79-113 | one connection by itself, served until nothing is left to do, has the machine, replies and openness that the loop makes of its chunks |
| Connections.CanFinish | src/server/tcp_server.py:91-103 | whatever the others do, a connection can be served until nothing is left to do for it, without touching the others |
| Connections.SavesLeaveThree | src/server/tcp_server.py:121-131 | a crash during a periodic save leaves the old files, the new snapshot with the old log, or the new snapshot alone, and nothing else |
| Clients.SchedulesAreRecoveryRuns | src/server/tcp_server.py:115-131 | every schedule, periodic saves included, is a run of the crash model in which the process lives on, through the same states of the disk, and the writes acknowledged are those the replies confirm, in order of service |
| Clients.ConfirmedWritesSurviveAnyCrash | src/persistence/manager.py:37-83 | killed at any state of the disk under any schedule of any clients and started again later, the server shows of a key all confirmed writes, and those of the step in progress wholly or not at all, if and only if that restart does not find the key freshly lapsed; the run so far is extended by this life |
| Clients.ConfirmedWritesSurviveAllCrashes | src/persistence/manager.py:37-83 | over any number of lives from an empty disk, each killed at any moment: after every restart a key shows all writes confirmed so far if and only if no restart finds it lapsed |
| MovingClock.KeyCarryIff | src/storage/in_memory.py:31-58 | with the clock moving inside a command, disk, memory and acknowledged writes agree on its key afterwards if and only if EXPIRE and TTL did not outlast the deadlines they saw and set |
| MovingClock.StepAgreesIff | src/persistence/manager.py:37-83 | the same for each step: commands with all their readings, saves and restarts with one for every key, crashes between |
| MovingClock.DurableWhileTheClockMovesIff | src/persistence/manager.py:37-83 | in every run from an empty machine a key agrees throughout if and only if every step is steady for it; then memory and files show exactly its acknowledged writes |
| MovingClock.OverwrittenNeverComesBack | src/persistence/manager.py:37-83 | in every run with any clock, crashes and restarts anywhere, what is seen of a key has the value of its last acknowledged SET, or of the write in flight; nothing deleted or overwritten returns |
| MovingClock.StillClockIsRecovery | src/storage/in_memory.py:48-73 | with the clock standing still inside steps this is the crash model, and only restarts can go wrong for a key |
| MovingClock.DispatchTakesSteps | src/server/dispatcher.py:21-89 | every dispatched command with all its readings is a run of these steps through the same states of the disk, and acknowledges what its reply confirms |
| Routing.OwnerInNumbers | src/cluster/router.py:20-53 | the slot is the digest modulo 16384, the owner the node at the slot modulo the number of nodes; a redirection reads back as this slot and this node's host and port |
| Sharding.RedirectedExactlyWhenForeign | src/cluster/router.py:24-53 | a server carries a command out if and only if it has no key or the digest modulo 16384 modulo the number of nodes is the server's index; else it changes nothing and names the slot, host and port of that node |
| Sharding.OneHopIsEnough | src/server/dispatcher.py:21-24 | from any server at most one redirection reaches the server that carries the command out, and it does not answer MOVED |
| Sharding.FollowRefinesSingle | src/server/dispatcher.py:21-49 | one command sent anywhere is answered as by a single server, and every server keeps only its own keys |
| Sharding.ClusterRefinesSingle | src/server/dispatcher.py:21-49 | for every run of commands sent to any servers, all replies equal those of a single server |

## Left out

- Sockets, tasks, cancellation, logging and argument parsing: dispatching and saving are synchronous, so each is one step between awaits. A stream is the list of its chunks or the bytes it will deliver.
- The JSON text of both files, temporary files, fsync and torn lines: records and snapshots are typed values, appending and replacing are atomic. The errors for malformed files are therefore absent.
- Float rounding and overflow of deadlines and of the load factor: exact arithmetic.
- int(): digits outside ASCII and the limit on the number of digits; ASCII white space, signs and underscores are modelled.
- Command names with letters or white space outside ASCII that strip and upper would turn into a command name.
- SHA-256 and Python's hash: any function will do.
- HashTable.setdefault, values and repr: easy members.
- InMemoryStore.invalidate and StorageEngine: pure delegation.
- The timer of the periodic snapshot task: a save may happen at any moment.
- The benchmark statistics, the console client and flask_test: not part of the server.
- Server.HandleClient: one clock reading for each command, and so for the sessions, clients and shards built on it; Dispatching.Dispatcher.RunCommand has every reading, and module MovingClock its consequences.
- Recovery.AcknowledgedWritesSurvive: says nothing of a key that some restart found freshly lapsed, because the code revives such a key; Accounts.AccountsAreRight says what is shown of it.
- Pipeline.Session: leaves out requests whose reply the encoder refuses; Pipeline.EncoderRefusesExactly says which these are, and Server.HandleClient closes the connection on them as the code does.
