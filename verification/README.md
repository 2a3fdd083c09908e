# Verified model of a Redis client library and a pipelined block client

This project models, in Dafny, the request/reply core of the hiredis client library
(`redis/hiredis/`) and the windowed block-transfer client (`db/xihu_client.h`), and proves what
they are for: replies do not depend on how bytes arrive, commands and replies survive encoding and
decoding, every callback runs exactly once and in order, the hash table is a finite map, and a
block transfer moves the right blocks under every completion order.

`dafny verify dfyconfig.toml` checks the whole project.

## Main results

* **Chunk independence.** For every interleaving of feeds and reply requests, the reader emits
  exactly the replies of a recursive RESP parse of the concatenated input and ends with the same
  fault or none (`Machine.AnyChunkingParsesTheStream`; on the real object, with its task stack,
  compaction and in-place objects, `ReaderSession.ReadStream`).
* **Print/parse and encode/parse round trips** (`Resp.PrintParse`, `Machine.PrintedReplyIsEmitted`,
  `Commands.CommandParses`), with three encoders that agree byte for byte and fill precomputed
  buffers exactly, and **laws at inputs written out** that say byte by byte what the parser, the encoders,
  the formats, quoting and hashing do, without reference to each other (`WireLaws`, `EncodingLaws`,
  `QuotingLaws`, `SdsLaws`, `HashLaws`).
* **Callbacks exactly once, in order, with their own reply**, over every run of events, network
  outcomes and user code (`AsyncRuns.Drive`). The accepted commands are exactly those that events,
  callbacks and the connect hook asked for before anything closed the context. NULL is given only when
  the context is freed, every complete reply has been dispatched by then unless a callback asked to free
  the context, the context is freed only for a reason, and exactly the accepted commands are sent.
* **The hash table is a finite map** over every sequence of operations (`Dicts.RunAll`), and an
  iteration that deletes as it goes visits every key once and leaves the rest (`Dicts.VisitAll`).
* **Block transfers are exact** under every completion order (`XihuClients.WriteThenRead`), and a read
  is exact if and only if it ends at or below block 2^32 (`XihuMission.ReadIsExactIff`).
* **Quoting and splitting round trips** for command lines and separators (`SplitJoin.QuoteAndSplit`,
  `SplitJoin.SplitIsUnique`), and number text round trips (`Decimal.NumberRoundTrip`).

## Layout

| files | content |
|---|---|
| `Bytes`, `Decimal`, `Sds` | bytes, decimal text, dynamic strings |
| `Resp`, `Machine` | recursive parser and printer on values; small-step parser, chunking, refinement |
| `ReplyObjects`, `Reader`, `ReaderSession` | reply objects and task stack, the reader class, whole sessions |
| `Command`, `Format`, `Context` | encoders, printf-like formatter, synchronous context |
| `CallbackList`, `Deliveries`, `Traces`, `Async`, `AsyncRuns` | pending list, accounts of commands and callbacks, requests of users, asynchronous context, whole runs |
| `DictRows`, `DictLinks`, `DictRehash`, `Dict` | hash table |
| `XihuWindow`, `XihuMission`, `Xihu` | block client |
| `Quoting`, `SplitJoin` | command-line quoting, splitting and joining |
| `WireLaws`, `EncodingLaws`, `QuotingLaws`, `SdsLaws`, `HashLaws` | laws at inputs written out |

## Modelling decisions

* Objects that the C code reaches through `malloc`ed references and relinks in place (reply objects,
  hash table entries, nodes of the callback list) live in a store, a sequence that only grows; an
  address is an index into it. Attaching a child or relinking a node rewrites one element of the store.
* Memory allocation always succeeds. Buffers stay below 2^31 bytes, so the `int` positions of
  `seekNewline` and of the formatters do not overflow.
* Signed overflow in `readLongLong`, element counts outside -1..INT_MAX and the two largest bulk
  lengths are undefined or truncated in C; there the model stops the reader with the fault
  `OutOfModel`. All theorems about streams cover this fault like the others.
* `processMultiBulkItem` refuses an array at stack slot 8 in the same call that read its type byte;
  the model makes that test when the type byte is read. The message of the C code speaks of
  "depth > 7"; what the code accepts is eight nested array levels, and that is what is modelled.
* `redisContext` holds its reader as a machine session (a value); the class `Readers.Reader` is proved
  to take exactly these sessions' steps. `redisAsyncContext` contains a `redisContext`, as in C, and
  keeps its pending callbacks in the linked list of `CallbackLists`.
* Sockets are lists of outcomes chosen by the environment. User code is a program: an arbitrary list of
  API calls for each call of user code, by its number, and one of commands for the connect hook. The
  block client's network may serve and complete requests in any order; event-loop turns in which nothing
  happens are not represented.
* Block ids and the request counter of the block client are truncated to 32 bits as in the code
  (`XihuWindow.Trunc`). A write stores each block under its truncated id, wherever the mission ends. The
  answer to a read is placed by the id it carries, so a read is exact if and only if it ends at or below
  block 2^32 (`XihuMission.ReadIsExactIff`, with a mission that goes wrong in
  `XihuMission.ReadGoesWrong`); `ReadBlocks` requires this. Both need a request counter that fits 32
  bits, which is exactly when the continuation's comparison is right (`XihuWindow.CounterIsExactIff`,
  with a mission that goes wrong in `XihuMission.CounterGoesWrong`).

## Model

| member | source | states |
|---|---|---|
| Decimal.WriteDigits | redis/hiredis/sds.c:306-311 | the digit loop leaves the decimal digits of the value, least significant first, and touches nothing behind them |
| Decimal.ReversePrefix | redis/hiredis/sds.c:318-326 | the prefix is reversed in place, the rest of the buffer unchanged |
| Decimal.Ll2Str | redis/hiredis/sds.c:299-328 | signed decimal text and its NUL, always within the 21-byte buffer, for every 64-bit value but the minimum |
| Decimal.Ull2Str | redis/hiredis/sds.c:331-357 | unsigned decimal text and its NUL within the 21-byte buffer for every value up to 2^64-1 |
| Decimal.DecLength | redis/hiredis/hiredis.c:191-203 | k digits suffice exactly for the numbers below 10^k |
| Decimal.LongLongFits | redis/hiredis/sds.c:298-302 | a signed 64-bit value takes at most 20 characters |
| Decimal.UnsignedFits | redis/hiredis/sds.c:330-333 | an unsigned 64-bit value takes at most 20 characters |
| Decimal.CountDigits | redis/hiredis/hiredis.c:193-203 | the four-at-a-time count is the length of the decimal notation |
| Decimal.ReadLongLong | redis/hiredis/read.c:148-173 | the loop reads sign and digits up to the first CR, -1 for other text, overflow made explicit |
| Decimal.NumberRoundTrip | redis/hiredis/read.c:146-173 | written number followed by CR and anything reads back as the same number |
| WireLaws.SignedDigits | redis/hiredis/read.c:148-173 | digits with or without a sign read as their value, no digits as zero |
| WireLaws.OtherText | redis/hiredis/read.c:160-172 | any other byte before the CR makes the number -1 |
| WireLaws.SignedText | redis/hiredis/sds.c:298-328 | a written number is digits without leading zeros, behind a minus sign exactly if negative |
| WireLaws.KnownNumbers | redis/hiredis/sds.c:298-328 | 0, 42 and -907, written out |
| SdsStrings.Sds.MakeRoomFor | redis/hiredis/sds.c:129-147 | room for the requested bytes by the doubling policy, contents unchanged |
| SdsStrings.Sds.CatLen | redis/hiredis/sds.c:237-249 | contents become old contents followed by the new bytes, terminator kept |
| SdsStrings.RangeBounds | redis/hiredis/sds.c:579-598 | the index arithmetic selects exactly the slice the negative-index convention means |
| SdsStrings.Sds.Range | redis/hiredis/sds.c:575-603 | contents become that slice, allocation conserved |
| SdsStrings.Sds.CatArg | redis/hiredis/sds.c:451-505 | a directive appends the text of its argument |
| SdsStrings.Sds.CatOne | redis/hiredis/sds.c:435-519 | one turn of the format loop appends what one directive or literal stands for |
| SdsStrings.Sds.CatFmt | redis/hiredis/sds.c:425-526 | contents grow by the format with its directives replaced by their arguments |
| SdsLaws.RangeKeeps | redis/hiredis/sds.c:575-603 | byte k is kept exactly if it stands between the two indices, counted from either end |
| SdsLaws.RangesOfCiao | redis/hiredis/sds.c:1013-1047 | the six ranges of "ciao" that the library's own tests list |
| SdsLaws.FmtMeans | redis/hiredis/sds.c:425-526 | for every format of text, %s %S %i %I %u %U %T and other percent pairs, the text appended is that of its pieces in order |
| Resp.Newline | redis/hiredis/read.c:119-144 | the first CR LF pair, or that there is none |
| Resp.PrintParse | redis/hiredis/read.c:215-365 | every reply tree of at most eight array levels parses back from its encoding and leaves what follows untouched |
| Resp.PrintParseMany | redis/hiredis/read.c:302-365 | the same for the elements of an array |
| Resp.StatusRoundTripIff | redis/hiredis/read.c:175-188 | a status or error line survives if and only if its text holds no CR LF pair |
| Resp.PrintParseAll | redis/hiredis/read.c:477-525 | encodings back to back parse to exactly that list of replies |
| WireLaws.BytesAre | redis/hiredis/read.c:375-398 | the type bytes, the line end and the integer bounds, as literals |
| WireLaws.TextLines | redis/hiredis/read.c:215-233 | plus begins a status and minus an error, up to the line end |
| WireLaws.IntegerLines | redis/hiredis/read.c:220-226 | a colon line is the integer its text stands for |
| WireLaws.NullReplies | redis/hiredis/read.c:249-337 | star or dollar with -1 is nil, at every level and whatever follows |
| WireLaws.NullElement | redis/hiredis/read.c:316-337 | a null array among the elements of an array is a nil element |
| WireLaws.NilBulks | redis/hiredis/read.c:261-266 | any negative or unreadable bulk length is nil |
| WireLaws.BulkStrings | redis/hiredis/read.c:267-281 | a bulk string is the announced bytes; the two bytes behind them are skipped unread |
| WireLaws.BulkWaits | redis/hiredis/read.c:267-275 | it is not complete before its second trailing byte |
| WireLaws.Arrays | redis/hiredis/read.c:316-360 | an array header announces as many elements, one level deeper |
| WireLaws.OtherTypeBytes | redis/hiredis/read.c:390-397 | every other type byte is a fault |
| WireLaws.EightLevels | redis/hiredis/read.c:308-314 | n nested arrays are accepted for n up to 8 and refused beyond |
| WireLaws.ParseIsStable | redis/hiredis/read.c:367-414 | what has been parsed does not depend on what follows |
| WireLaws.PrefixIsIncomplete | redis/hiredis/read.c:477-525 | no proper prefix of an encoded reply yields a reply or a fault |
| Machine.ItemIsStable | redis/hiredis/read.c:249-300 | an item that can be read is read the same way when more bytes have arrived |
| Machine.StepIsStable | redis/hiredis/read.c:367-414 | a parser step does not depend on bytes behind the item it reads |
| Machine.GetThenDrain | redis/hiredis/read.c:477-525 | asking for a reply early changes nothing of what later input yields |
| Machine.ChunkingIsIrrelevant | redis/hiredis/read.c:445-525 | for every session and every interleaving of feeds and requests, replies and final session are those of one feed |
| Machine.CompleteClimbs | redis/hiredis/read.c:190-213 | finishing an item, with its cascade of finished arrays, agrees with the recursive parse of the enclosing arrays |
| Machine.StepResumes | redis/hiredis/read.c:367-414 | every step keeps the recursive parse of the root reply, and is stuck or faulty exactly when that parse is |
| Machine.DrainIsParseAll | redis/hiredis/read.c:501-524 | draining any state yields the recursive parse of the rest of the stream |
| Machine.AnyChunkingParsesTheStream | redis/hiredis/read.c:445-525 | any interleaving, once drained, has emitted the recursive parse of the whole input and ends in its fault or none |
| Machine.PrintedReplyIsEmitted | redis/hiredis/read.c:477-525 | one request on an encoded reply emits that reply and leaves exactly the bytes behind it |
| Machine.GetIsResume | redis/hiredis/read.c:501-508 | one request returns the recursive parse of the current reply |
| Machine.HistoryIsPrefix | redis/hiredis/read.c:477-525 | replies emitted so far are a prefix of the parse of the input so far; after a fault they are all of it |
| Machine.HistoryIsComplete | redis/hiredis/read.c:518-524 | when a request finds no reply, every complete reply has been emitted |
| Machine.HistoryAsks | redis/hiredis/read.c:477-525 | one more request yields the next reply of the input, or shows that the reader has none |
| ReplyObjects.BuiltIsUnique | redis/hiredis/hiredis.c:102-189 | an object address denotes at most one reply tree |
| ReplyObjects.ParentIsArray | redis/hiredis/hiredis.c:126-130 | the builders' assertion: the parent is an array with the slot that the task names |
| ReplyObjects.AttachKeepsSpine | redis/hiredis/hiredis.c:126-130 | a new object fills its own slot and disturbs no other object on or below the stack |
| ReplyObjects.PushKeepsSpine | redis/hiredis/read.c:343-353 | pushing the task of a non-empty array keeps every level's array, index and back reference right |
| ReplyObjects.AdvanceKeepsSpine | redis/hiredis/read.c:204-211 | moving to the next element files the finished child at its index |
| ReplyObjects.PopKeepsSpine | redis/hiredis/read.c:202-203 | the last element completes the array as one tree, root first |
| WireLaws.ObjectsAre | redis/hiredis/hiredis.c:102-189 | type and contents of the object that denotes a reply |
| WireLaws.ElementsAre | redis/hiredis/hiredis.c:126-130 | element i of an array object denotes element i of the reply |
| Readers.SeekNewline | redis/hiredis/read.c:119-144 | finds the first CR LF pair within the length although it may look at the terminator behind it |
| Readers.BulkAt | redis/hiredis/read.c:257-281 | bulk header and payload are read together or not at all |
| Readers.Reader.SetError | redis/hiredis/read.c:46-70 | the reply, the input and the task stack are dropped and the fault recorded |
| Readers.Reader.Feed | redis/hiredis/read.c:445-475 | the session receives exactly the bytes, or stays dead; emitted objects untouched |
| Readers.Reader.ReadLine | redis/hiredis/read.c:175-188 | the first line is returned and the cursor stands behind its CR LF, or nothing moves |
| Readers.Reader.Create | redis/hiredis/hiredis.c:102-189 | a new object attached at its index in its parent, only the parent rewritten |
| Readers.Reader.MoveToNextTask | redis/hiredis/read.c:190-213 | the cascade of finished arrays is the machine's, with the root tree complete when the stack empties |
| Readers.Reader.ScanLine | redis/hiredis/read.c:215-233 | a line item is read as the protocol says, with the cursor behind it |
| Readers.Reader.ScanBulk | redis/hiredis/read.c:249-281 | a bulk item is read as the protocol says and the cursor moves only when it is complete |
| Readers.Reader.ScanMultiBulk | redis/hiredis/read.c:316-337 | an array header is read as the protocol says |
| Readers.Reader.OpenArray | redis/hiredis/read.c:333-360 | a non-empty array goes on the stack, at most eight deep |
| Readers.Reader.ProcessItem | redis/hiredis/read.c:367-414 | one item is one or two machine steps; the task stack invariant holds after it |
| Readers.Reader.Compact | redis/hiredis/read.c:510-516 | discarding consumed input changes nothing that is still to be parsed |
| Readers.Reader.GetReply | redis/hiredis/read.c:477-525 | returns the reply the machine emits as a complete object tree, terminates, leaves earlier replies untouched |
| ReaderSession.ReadStream | redis/hiredis/read.c:445-525 | whatever the chunking, the reader object emits exactly the trees of the recursive parse, in order, with its fault |
| WireLaws.ReadNullArray | redis/hiredis/read.c:320-322 | the null array, however it arrives, becomes a nil object |
| Commands.CommandParses | redis/hiredis/hiredis.c:530-566 | the reader parses an encoded command to the array of its arguments, whatever follows |
| Commands.WireIsPrefixFree | redis/hiredis/hiredis.c:530-566 | no encoding is a prefix of the encoding of another argument list |
| EncodingLaws.WireBytes | redis/hiredis/hiredis.c:547-562 | every byte of an encoded command: star, count, line end, then dollar, length, line end, bytes, line end for each argument |
| EncodingLaws.Ping | redis/hiredis/hiredis.c:547-562 | the encoding of PING, written out |
| Commands.Args | redis/hiredis/hiredis.c:541-544 | argument i is the counted block or the C string up to its terminator |
| Commands.BulkLen | redis/hiredis/hiredis.c:205-208 | the size of any bulk string of that length with header and trailer |
| Commands.TotalLength | redis/hiredis/hiredis.c:540-545 | the precomputed total is the length of the encoding |
| Commands.Build | redis/hiredis/hiredis.c:547-562 | the buffer of the precomputed size is filled exactly with the encoding and its terminator |
| Commands.FormatCommandArgv | redis/hiredis/hiredis.c:530-566 | the encoding of the arguments, with given lengths or as C strings |
| Commands.FormatSdsCommandArgv | redis/hiredis/hiredis.c:477-519 | the same bytes through dynamic strings, and the length assertion holds |
| Formats.Scan | redis/hiredis/hiredis.c:231-391 | the loop with its `touched` flag computes the maximal runs between spaces and the bytes they take |
| Formats.VFormatCommand | redis/hiredis/hiredis.c:210-417 | the encoding of the tokens in a buffer sized before the first byte was written |
| Formats.BlobsTokenise | redis/hiredis/hiredis.c:266-271 | "%b %b ... %b" gives back any list of binary arguments, empty ones included |
| EncodingLaws.FormatMeans | redis/hiredis/hiredis.c:231-391 | for every line of words of text, %s, %b and %%, with any number of spaces around them, the arguments are what the words stand for; an empty string still makes one |
| EncodingLaws.LonePercent | redis/hiredis/hiredis.c:232-232 | a percent sign that ends the format stands for itself |
| Contexts.Context.AppendCommand | redis/hiredis/hiredis.c:907-918 | appended bytes grow by the command; sent bytes followed by the buffer are all appended bytes |
| Contexts.Context.BufferWrite | redis/hiredis/hiredis.c:831-858 | partial and retried writes lose, repeat and reorder nothing; `done` means everything was sent; errors exactly as listed |
| Contexts.Context.BufferRead | redis/hiredis/hiredis.c:794-820 | received bytes reach the reader in order; the error is set exactly by end of file, a failed read, or a time-out when blocking |
| Contexts.Context.GetReplyFromReader | redis/hiredis/hiredis.c:862-868 | hands out exactly what one request on the reader yields: the next complete reply, NULL if there is none, an error for faulty input |
| Contexts.Context.GetReply | redis/hiredis/hiredis.c:870-898 | a buffered reply is returned at once; otherwise a blocking call sends everything, then reads until a reply is complete and not further; it waits only when the socket outcomes are used up; every error has its cause |
| CallbackLists.CallbackList.Push | redis/hiredis/async.c:227-247 | the linked list grows by one at the tail |
| CallbackLists.CallbackList.Shift | redis/hiredis/async.c:249-263 | the head is taken off, head and tail stay right, an empty list is reported |
| CallbackLists.PushSpells | redis/hiredis/async.c:239-245 | linking a node behind the tail spells out the list with the callback at its end |
| CallbackLists.ShiftSpells | redis/hiredis/async.c:250-254 | following the head's link, with the tail reset for the last node, spells out the rest |
| DeliveryBooks.AcceptBalances | redis/hiredis/async.c:636-642 | accepting a command keeps the accounts of commands, callbacks, replies and output balanced |
| DeliveryBooks.ConsumeBalances | redis/hiredis/async.c:282-283 | taking the oldest callback off, with its own reply or NULL, keeps them balanced |
| DeliveryBooks.DeliveriesAre | redis/hiredis/async.c:439-477 | command i is given reply i, or NULL if there is none, under its own callback |
| AsyncTraces.OrdersAreGranted | redis/hiredis/async.c:583-648 | a context that follows its requests has accepted exactly the commands asked for before anything closed it |
| AsyncTraces.GrantedAre | redis/hiredis/async.c:593-594 | everything before the first closing request is granted, in order, and nothing behind it |
| AsyncTraces.FlattenGrows | redis/hiredis/async.c:265-272 | the requests of a run are those of its events, scripts and hook, one after the other |
| AsyncTraces.MovesAre | redis/hiredis/async.c:323-362 | a command asks, disconnect and free close |
| AsyncTraces.FlagsAreWanted | redis/hiredis/async.c:323-362 | the closing flags are up exactly for a request made or a broken connection |
| AsyncTraces.ActedNarrows | redis/hiredis/async.c:593-594 | no user code enqueues once the context is closing, reopens it, or frees it without asking |
| AsyncContexts.AsyncContext.Command | redis/hiredis/async.c:583-648 | accepted, queued last and appended to the output exactly when the context is not closing; nothing else changes |
| AsyncContexts.AsyncContext.Submit | redis/hiredis/async.c:650-680 | a command issued between callbacks is accepted exactly while the context is open, and recorded |
| AsyncContexts.AsyncContext.RunCallback | redis/hiredis/async.c:265-272 | the user's code runs once if there is a callback, with exactly the effect of its calls in order; the output stays exactly the accepted commands |
| AsyncContexts.AsyncContext.Call | redis/hiredis/async.c:265-272 | one call of user code is logged once and does exactly what its script says, nothing before, between or behind |
| AsyncContexts.AsyncContext.Act | redis/hiredis/async.c:323-362 | each call of the API from inside a callback has exactly its own effect |
| AsyncContexts.AsyncContext.Serve | redis/hiredis/async.c:249-272 | the oldest pending callback is taken off and run with its reply or NULL; accounts and output stay balanced; a closing context stays closed |
| AsyncContexts.AsyncContext.DrainPending | redis/hiredis/async.c:281-283 | the drain loop ends although callbacks run in it, with nothing pending and every callback given NULL |
| AsyncContexts.AsyncContext.Teardown | redis/hiredis/async.c:275-317 | terminates, gives every pending callback NULL in order, hands the disconnect hook OK exactly if the free was requested or there was no error, frees; only an error, a requested free or a complete set of replies allows it |
| AsyncContexts.AsyncContext.AsyncDisconnect | redis/hiredis/async.c:331-349 | the clean-disconnect assertion holds, new commands are locked out, the hook's status is that of the error, the context is freed |
| AsyncContexts.AsyncContext.Disconnect | redis/hiredis/async.c:357-362 | frees at once exactly when nothing is pending, otherwise only closes |
| AsyncContexts.AsyncContext.Free | redis/hiredis/async.c:323-328 | outside callbacks the context is freed; replies given before stay given and all pending callbacks get NULL |
| AsyncContexts.AsyncContext.Dispatch | redis/hiredis/async.c:439-477 | the reply goes to the oldest pending callback, and a free requested meanwhile is reported |
| AsyncContexts.AsyncContext.Spontaneous | redis/hiredis/async.c:439-463 | an unrequested reply closes the connection if it is an error and fails the assertion otherwise |
| AsyncContexts.AsyncContext.ProcessCallbacks | redis/hiredis/async.c:411-489 | no complete reply stays in the reader unless a callback asked to free the context or a reply came unasked; an error has its cause in the input; a closing context stays only if replies or output are pending |
| AsyncContexts.AsyncContext.ConnectHook | redis/hiredis/async.c:494-511 | the hook's commands are issued once, in order, and nothing else happens |
| AsyncContexts.AsyncContext.HandleConnect | redis/hiredis/async.c:494-511 | connected, still in progress with its error kept, or torn down |
| AsyncContexts.AsyncContext.HandleRead | redis/hiredis/async.c:516-535 | exactly the bytes read are fed and all replies they complete are dispatched; end of file and errors tear down; an error has its cause in the event or the input; before the connection stands nothing is read |
| AsyncContexts.AsyncContext.HandleWrite | redis/hiredis/async.c:537-562 | sent bytes grow by as much as the socket took, also when the connection comes up in the same call; a refused connect, a write error or an error left behind tears down |
| AsyncRuns.Drive | redis/hiredis/async.c:411-489 | every run handles all its events unless freed or aborted; the accepted commands are exactly those asked for by events, by each call of user code made and by the hook, before anything closed the context; user code ran exactly for those with a callback, once each, in order, with reply i of the bytes that arrived; NULL only in a freed context, all complete replies dispatched unless a callback asked to free; a context is freed only because asked, with all replies in, broken, or fed faulty input; sent bytes followed by the output buffer are the accepted commands |
| AsyncRuns.HandleEvent | redis/hiredis/async.c:516-562 | one event makes exactly its own call, feeds exactly its own bytes, leaves no complete reply undispatched, and causes an error only if it breaks the connection or the input is faulty |
| AsyncRuns.FitsGrows | redis/hiredis/async.c:494-562 | over one more event the context still fits what the events say: bytes, connection, calls of the user in order |
| AsyncRuns.OrdersAreRight | redis/hiredis/async.c:583-648 | the commands accepted are exactly those requested while open, no callback queued twice |
| AsyncRuns.ArrivedIs | redis/hiredis/async.c:516-535 | what arrives is what the reads bring, in order |
| AsyncRuns.UserActionsAre | redis/hiredis/async.c:583-648 | the user's calls are the user's events, in order |
| AsyncRuns.LinkIs | redis/hiredis/async.c:494-562 | which events bring the connection up and which break it |
| AsyncRuns.RepliesAreRight | redis/hiredis/async.c:411-489 | the replies taken are a prefix of the recursive parse of the bytes fed, and all of it unless cut short |
| AsyncRuns.EndIsRight | redis/hiredis/async.c:323-362 | every freed context was asked to end, had nothing left to wait for, lost its connection or was fed faulty input |
| DeliveryBooks.RunsInOrder | redis/hiredis/async.c:249-263 | the position of a delivery among the calls is given by those accepted before it |
| DeliveryBooks.CalledAsOftenAsAccepted | redis/hiredis/async.c:265-287 | a callback is called as often as it was accepted, a NULL callback never |
| DictRows.GenHash | redis/hiredis/dict.c:53-59 | the loop computes hash * 33 + c in 32-bit arithmetic |
| HashLaws.HashIsPolynomial | redis/hiredis/dict.c:53-59 | the hash is 5381 times 33^n plus the bytes to the base 33, modulo 2^32 |
| HashLaws.MaskIsRemainder | redis/hiredis/dict.c:98-99 | masking by a power of two less one is the remainder |
| DictRows.MaskReachesEveryBucket | redis/hiredis/dict.c:98-99 | with a power-of-two capacity the mask leaves every bucket reachable |
| DictRows.NextPower | redis/hiredis/dict.c:306-315 | the least power of two from 4 on that is not below the size |
| DictRehash.MoveOne | redis/hiredis/dict.c:113-124 | relinking one entry adds it to the new table and to no other row, and keeps all others |
| DictRehash.MoveRow | redis/hiredis/dict.c:111-124 | a whole chain is relinked, each entry once |
| DictRehash.Rehash | redis/hiredis/dict.c:102-126 | the new table holds exactly the old entries, each in its bucket, although the loop exits early |
| DictLinks.PrependIndexed | redis/hiredis/dict.c:144-152 | a new key in front of its bucket keeps one entry per key, each in its bucket |
| DictLinks.RemoveIndexed | redis/hiredis/dict.c:194-204 | taking an entry out removes exactly its key |
| DictLinks.UnlinkKeepsLinks | redis/hiredis/dict.c:194-198 | redirecting the predecessor or the head leaves every chain linked |
| DictLinks.TableOrderIsComplete | redis/hiredis/dict.c:217-229 | walking all rows meets every key exactly once and nothing else |
| Dicts.Dict.Find | redis/hiredis/dict.c:243-256 | finds the entry with the mapped value, or NULL exactly when the key is not mapped |
| Dicts.Dict.Expand | redis/hiredis/dict.c:88-132 | the map is unchanged, the capacity suffices, refused exactly when too small |
| Dicts.Dict.ExpandIfNeeded | redis/hiredis/dict.c:295-303 | afterwards there is room for one more entry |
| Dicts.Dict.Add | redis/hiredis/dict.c:135-154 | adds exactly when the key is new; used equals the map size and never exceeds the capacity |
| Dicts.Dict.Replace | redis/hiredis/dict.c:160-179 | the key is mapped to the value, and whether it was new is reported |
| Dicts.Dict.Delete | redis/hiredis/dict.c:182-210 | removes exactly the key, reports whether it was there |
| Dicts.Dict.Clear | redis/hiredis/dict.c:213-235 | every entry destroyed exactly once, the table empty |
| Dicts.DictIterator.Next | redis/hiredis/dict.c:268-286 | returns the first remaining entry, NULL exactly at the end, terminates |
| Dicts.DictIterator.DeleteCurrent | redis/hiredis/dict.c:278-283 | deleting the entry just returned leaves the remaining ones as they are |
| Dicts.VisitAll | redis/hiredis/dict.c:258-286 | every key is visited exactly once although the caller may delete as it goes; afterwards the table maps exactly what was not deleted |
| Dicts.RunAll | redis/hiredis/dict.c:135-256 | any sequence of add, replace, delete and find gives the answers and the contents of a finite map |
| XihuWindow.TruncIsRemainder | db/xihu_client.h:28-28 | the conversion to uint32_t is the remainder modulo 2^32 |
| XihuWindow.IdIs | db/xihu_client.h:38-38 | the id of a block is its number modulo 2^32 |
| XihuWindow.IdsDifferIff | db/xihu_client.h:38-38 | the blocks of a mission have ids of their own if and only if there are at most 2^32 of them |
| XihuWindow.CounterIsExactIff | db/xihu_client.h:28-31 | the continuation's comparison of the truncated counter is right throughout a mission if and only if the mission and its window fit 32 bits |
| XihuWindow.TakeBuffer | db/xihu_client.h:98-99 | taking a buffer keeps free and in-flight buffers a partition of the pool |
| XihuWindow.GiveBuffer | db/xihu_client.h:27-27 | giving it back keeps the partition |
| XihuWindow.IssueBlock | db/xihu_client.h:97-108 | each block is requested once and carried by one buffer |
| XihuWindow.FinishBlock | db/xihu_client.h:26-28 | a completion moves its block from in flight to done |
| XihuMission.IssueIsGood | db/xihu_client.h:34-41 | a new request carries its own block and id and leaves the data of all others right |
| XihuMission.ServeIsGood | db/xihu_client.h:66-69 | the server's step stores or returns the right block and touches no id outside the mission |
| XihuMission.FinishIsGood | db/xihu_client.h:44-47 | a read completion copies the block to its own place and nothing else |
| XihuMission.ReadLandsIff | db/xihu_client.h:44-55 | an answered block is placed by its id at its own place, and stored there, if and only if its number is below 2^32; otherwise the copy would leave the caller's buffer |
| XihuMission.ReadIsExactIff | db/xihu_client.h:115-139 | every block of a read lands if and only if the read ends at or below block 2^32 |
| XihuMission.ReadGoesWrong | db/xihu_client.h:45-47 | two blocks from the last 32-bit id: the second would be copied in front of the buffer |
| XihuMission.IssuedLeavesOthers | db/xihu_client.h:49-57 | no buffer in flight is rewritten before its completion |
| XihuMission.FinishedIsOk | db/xihu_client.h:26-48 | after a completion the counter names the next block to request and the window has room |
| XihuMission.ContinuationIsOk | db/xihu_client.h:26-62 | the whole continuation keeps the invariant and the window full, requesting exactly the next block or none |
| XihuMission.CounterGoesWrong | db/xihu_client.h:28-31 | with 2^32 - 1 blocks, all requested, the wrapped counter makes the continuation request block 0 again |
| XihuMission.WaitEnds | db/xihu_client.h:111-111 | the wait loop's condition fails exactly when every response has arrived |
| XihuMission.InFlightCount | db/xihu_client.h:90-113 | requests in flight are min(nxt, tot) - (nxt - pip), at most 30; all other buffers are free |
| XihuClients.XihuClient.Issue | db/xihu_client.h:97-108 | the state changes by exactly one request |
| XihuClients.XihuClient.ContFunc | db/xihu_client.h:26-62 | the continuation keeps the invariant, moves the counter by one and memory by at most the returned block |
| XihuClients.XihuClient.FillWindow | db/xihu_client.h:97-108 | the issue loop fills the window |
| XihuClients.XihuClient.Wait | db/xihu_client.h:136-138 | the event loop terminates under every order of events |
| XihuClients.XihuClient.WriteBlocks | db/xihu_client.h:90-113 | the server holds the caller's blocks under their 32-bit ids, all else unchanged, all buffers free again |
| XihuClients.XihuClient.ReadBlocks | db/xihu_client.h:115-139 | the buffer holds the server's blocks in order, all else unchanged, all buffers free again |
| XihuClients.WriteThenRead | db/xihu_client.h:90-139 | what was written is read back, for every length, every completion order, and also through one shared buffer |
| Quoting.CatRepr | redis/hiredis/sds.c:740-763 | appends the quoted and escaped form of the bytes |
| Quoting.SplitArgs | redis/hiredis/sds.c:815-923 | the cursor loops compute the arguments of the line, or the error exit |
| Quoting.EscapeIsUndone | redis/hiredis/sds.c:743-759 | every byte's escape is read back as that byte and nothing more |
| Quoting.QuotingRoundTrip | redis/hiredis/sds.c:740-923 | every list of byte strings, quoted and joined with spaces, splits back into that list |
| QuotingLaws.EscapesAre | redis/hiredis/sds.c:743-759 | the exact text of every byte: itself, a letter behind a backslash, or two lower-case hexadecimal digits |
| QuotingLaws.HarmlessRepr | redis/hiredis/sds.c:754-755 | text without special bytes is quoted as it stands |
| QuotingLaws.ReprIsPrintable | redis/hiredis/sds.c:740-763 | a quoted string is printable and stands between double quotes |
| QuotingLaws.KnownRepr | redis/hiredis/sds.c:1069-1073 | the quoted string of the library's own test |
| QuotingLaws.OpenQuoteIsRefused | redis/hiredis/sds.c:858-860 | a line whose double quote is never closed is refused |
| QuotingLaws.GluedQuoteIsRefused | redis/hiredis/sds.c:853-857 | a line that goes on right behind a closing quote is refused |
| QuotingLaws.OpenSingleQuoteFails | redis/hiredis/sds.c:874-876 | an open single quote is refused |
| QuotingLaws.GluedSingleQuoteFails | redis/hiredis/sds.c:869-873 | so is text right behind a closing single quote |
| QuotingLaws.BackslashMeans | redis/hiredis/sds.c:838-851 | what each letter behind a backslash stands for |
| QuotingLaws.WordThenQuote | redis/hiredis/sds.c:883-900 | a word with a quoted string glued to it is one argument |
| QuotingLaws.WordsAreSplit | redis/hiredis/sds.c:822-900 | a line of bare words is split at its blanks, however many there are |
| Quoting.WordIsRead | redis/hiredis/sds.c:883-900 | a bare word is read as it stands up to the blank that ends it |
| Quoting.SingleQuotesUndoneIff | redis/hiredis/sds.c:867-881 | a single-quoted string comes back if and only if it does not end in a backslash |
| SplitJoin.JoinSds | redis/hiredis/sds.c:962-971 | the tokens with the separator between them |
| SplitJoin.SplitLen | redis/hiredis/sds.c:658-695 | a split at the leftmost separators whose join is the string, with room for every token |
| SplitJoin.TokensAreClean | redis/hiredis/sds.c:681-688 | no token contains the separator |
| SplitJoin.SplitIsUnique | redis/hiredis/sds.c:671-694 | string and separator determine the split |
| SplitJoin.QuoteAndSplit | redis/hiredis/sds.c:740-923 | quoting, joining and splitting, run one after the other, give back the arguments |

## Left out

- Readers.Reader.ScanMultiBulk: element counts below -1 or above INT_MAX end in the fault `OutOfModel`, where the C code truncates them or builds an array with a negative count.
- Readers.Reader.GetReply: stops with `OutOfModel` where the C code overflows a signed integer, truncates an element count or builds an array with a negative count below -1.
- Formats.Scan: the same formats are excluded as for `Formats.VFormatCommand`.
- Formats.VFormatCommand: directives other than %s, %b and %% are delegated by the C code to the C library's formatting and are not modelled; formats that use them are excluded.
- AsyncContexts.AsyncContext.Command: SUBSCRIBE, UNSUBSCRIBE, their pattern variants and MONITOR, with their callback dictionaries, are not modelled; the statements are about request/reply contexts.
- AsyncContexts.AsyncContext.Teardown: the connect and disconnect hooks issue commands at most; hooks that free or disconnect the context again are not modelled.
- Contexts.Context.GetReply: returns `Waiting` when the given socket outcomes end before the call does; the call itself may block for ever.
- XihuClients.XihuClient.WriteBlocks: requires a request counter that fits 32 bits; longer missions, in which the continuation would request blocks again, are not modelled.
- XihuClients.XihuClient.ReadBlocks: requires the same and that the read ends at or below block 2^32, beyond which the code writes outside the caller's buffer; that memory is an array of blocks rather than of bytes.
- XihuClients.WriteThenRead: requires what reading requires.
- The error texts of the reader and of the contexts, and `chrtos`.
- Sockets, timeouts and event-loop adapters (`redis/hiredis/net.c`, `redis/hiredis/adapters/`).
- Key and value destructors of the hash table beyond the fact that each entry is destroyed once; sizes at or above LONG_MAX.
- Other helpers of `sds.c` (trimming, case mapping, copying, comparing), which would only add easy members.
- The benchmark driver itself: workload generators, property files, timing, and the other database bindings under `core/`, `db/` and `lib/`.
