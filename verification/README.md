# Verified models of the MeshCore client, backend and command line

This project models the parts of the MeshCore Go code base whose correctness is spread over
several functions or over whole runs, and proves properties of them for every input, every
interleaving or every reachable state.

| file | what it models |
|---|---|
| `RequestQueue.dfy`, `Correlation.dfy` | the single-flight request queue and the read loop that feeds it; which replies a request collects |
| `Dispatcher.dfy` | drop-oldest event fan-out with receivers running between the selects of `Emit` |
| `Daemon.dfy` | the session supervisor: racing starts, stops and stop-all |
| `MessageStore.dfy`, `AckCode.dfy`, `MessageRuns.dfy` | the message table, the text of ack codes, and runs of sends, acks, hearings and inbox calls |
| `InboxDrain.dfy` | `DrainMessages` and the backend's drain loop with coalesced wake-ups |
| `ContactSync.dfy` | incremental contact replication against a changing device |
| `StreamFrame.dfy` | framing with resynchronisation |
| `Companion.dfy`, `PacketLayout.dfy` | the packet decoder; what it reads from where, whole and cut at any byte |
| `Channels.dfy` | the channel codec and slot allocation |
| `TextOrder.dfy` | the order of texts, used for names and for timestamps |
| `Hex.dfy`, `PathHash.dfy`, `TracePlan.dfy`, `ReturnTarget.dfy`, `HopIndex.dfy` | path hashes, trace paths as text, trace plans, return targets, hop names |
| `Shell.dfy`, `ShellGrammar.dfy` | the shell tokenizer against the completion quoter, and what every line means |

How the protocols are written down. Where goroutines interleave (the queue, the daemon, the
drain loop, a contact sync while the device changes, session operations on the message table)
the model is a state machine: a state, one action per atomic step of the code, `Enabled` for
when a step can happen, and `After(acts)` for the state after a sequence of steps. A theorem
about `After(acts)` for all `acts` is a theorem about every interleaving. A timeout, a
cancelled context or a failed call is a step that may happen whenever the code would notice it.
Code that one goroutine runs to completion, or under a lock, is a class or a method with loops
proved against a function on values, and the runs are built from those same functions.

Findings. Several properties hold only under a condition. Each has the exact condition proved,
and a concrete run or input on which it fails:

- A late reply to a request that its context abandoned is collected, as a success, by the next
  request (`LateReplyGoesToNextRequest`). A request collects exactly its own replies if and only
  if nothing was owed when its waiter was set (`Correlates`).
- Stopping a device and starting it again opens a second connection while the first is still
  being closed (`StopThenStartOverlap`). A step gives a device a second open connection if and
  only if it is a successful dial while a session of that device is being stopped (`OverlapIff`).
- Two hearings of one message without a timestamp become two rows, and the two can be equal
  (`TimelessHearingsDuplicate`). Recording a hearing keeps messages distinct if and only if it
  carries a time or no row has the time it would be stored with (`HearingKeepsUniqueIff`).
- An observed advert can move the contact marker past a contact that was never fetched
  (`AdvertSkipsContact`), or be overwritten by an older answer already on its way
  (`LateUpsertLosesAdvert`). `AdvertKeepsInvIff` says exactly which adverts keep coverage, at
  every stage of a sync.
- A full refresh that fails after the replica was cleared loses contacts the same way
  (`FailedRefreshLosesContact`). It keeps coverage if and only if it stores the contacts or stops
  before clearing, or the marker claims no contact (`FullRefreshCoversIff`).
- A drain that fails, or that the late reply of an earlier request ends, can leave messages on the
  device with no wake-up pending (`FailedDrainStrands`): exactly when it leaves a message behind
  while no signal is pending or on its way (`StrandsIff`, `StrandedIff`).
- A value with a backslash does not survive the shell (`BackslashIsLost`): quoting and splitting
  give a list of values back if and only if no value contains one (`SplitUndoesQuoting`).
- A channel name survives its slot if and only if it has at most 32 bytes and no NUL
  (`StoredNameIff`), and a name that is cut can become another slot's name (`CutNameClashes`).
- Adding a channel can fail and yet write a slot (`FailedAddStores`): exactly when the write reached
  the device and its reply was lost or another message took its place (`FailureStoresIff`).
- Channel names do not always stay distinct. A slot query that gets some other reply is taken for a
  free slot, so that a name is added twice (`HiddenSlotDuplicates`); the late channel info of
  another slot makes an addition overwrite the wrong one (`LateInfoOverwrites`). Whatever the
  queries and the write are answered with, the names stay distinct if and only if nothing is
  stored or the name as stored is no other slot's (`AddKeepsDistinctIff`); when the queries get
  their own replies they do for every name that can be stored (`OwnProbesKeepDistinct`).
- The key fallback of a trace reaches past the end of a key exactly for keys of 3, 5, 6 or 7
  bytes that are shorter than the width wanted (`FallbackPastKeyIff`, `ShortKeySlicesPast`).
- A text surrounded by white space other than blanks is recognised as a trace target and then
  rejected as a path (`TabbedTargetIsRejected`); `TargetParsesIff` says which targets are paths.

## Model

| member | source | states |
|---|---|---|
| `RequestQueue.RunKeepsInv` | internal/queue/queue.go:48-104 | every interleaving of lock, register, send, snapshot, push, collect, unregister and release keeps the lock, reader, block and order invariants |
| `RequestQueue.OneWaiter` | internal/queue/queue.go:48-64 | in every run at most one request has its waiter set, it is the registered one, and its buffer stays within 2048 |
| `RequestQueue.CollectsContiguousBlock` | internal/queue/queue.go:70-104 | what a request collects is, in order, a prefix of one contiguous block of the non-push packets read, starting where its waiter was set |
| `RequestQueue.NoReplyTwice` | internal/queue/queue.go:87-104 | the blocks received by two requests are disjoint, although `Deliver` pushes outside the lock |
| `RequestQueue.StopsIff` | client.go:178-215 | the read loop stops at a step if and only if the connection fails or a reply meets a waiter whose buffer holds 2048; a reply without a waiter is dropped |
| `RequestQueue.OverflowIsLast` | client.go:202-210 | once a response buffer overflowed the reader has stopped, and in any continuation no request receives anything more |
| `RequestQueue.PushBitIsDecoded` | client.go:190-201 | the bit the read loop routes by is the decoder's verdict on the packet |
| `RequestQueue.RoutingIsExact` | client.go:178-215 | replies offered to the queue or unread are exactly the non-push packets sent, pushes handed to the event handler or unread exactly the others, each in the order sent |
| `Correlation.OrderlyRunKeepsInv` | internal/queue/queue.go:48-104 | against a device that answers in order, every run keeps each reply owned by the first command not yet answered in full |
| `Correlation.Correlates` | internal/queue/queue.go:48-104 | a request that succeeded collected exactly the replies to its own command if and only if every earlier command had been answered and matched when its waiter was set |
| `Correlation.CalmRunsCorrelate` | internal/queue/queue.go:48-104 | in every interleaving in which no request ends by context, send error or overflow, each success collected exactly its own replies |
| `Correlation.CalmRunOwesNothing` | internal/queue/queue.go:48-104 | in such runs nothing is owed whenever a waiter is set |
| `Correlation.OwnIffNothingOwed` | internal/queue/queue.go:70-82 | on values: a collected block equals the replies to one command if and only if it starts where that command's answer starts |
| `Correlation.LateReplyGoesToNextRequest` | internal/queue/queue.go:78-79 | a run in which an abandoned request's reply is the next request's success |
| `Dispatcher.Dispatcher.Subscribe` | internal/dispatcher/dispatcher.go:24-42 | adds one channel, empty and open, with the capacity asked for but at least 1, under an unused id, or a closed one after close; keeps the accounting invariant |
| `Dispatcher.RoomLosesNothing` | internal/dispatcher/dispatcher.go:60-81 | a fresh channel loses nothing as long as no more events were emitted than its buffer takes, whatever its receivers do |
| `Dispatcher.HoldsTheLast` | internal/dispatcher/dispatcher.go:60-81 | without a receiver a fresh channel holds the last events emitted, as many as its buffer takes, in order, and has lost exactly the earlier ones |
| `Dispatcher.Dispatcher.Unsubscribe` | internal/dispatcher/dispatcher.go:49-57 | removes the id and closes its channel, which was open; a second call changes nothing |
| `Dispatcher.Dispatcher.Offer` | internal/dispatcher/dispatcher.go:66-79 | with receivers running between the three selects, the event is always enqueued on an open channel; at most one event is dropped, one that was buffered before, and none if there was room |
| `Dispatcher.Dispatcher.Emit` | internal/dispatcher/dispatcher.go:60-81 | every open channel gets the event, closed ones none; after close nothing happens |
| `Dispatcher.Dispatcher.Close` | internal/dispatcher/dispatcher.go:83-93 | closes every channel still open, each once, leaving buffers; a second close changes nothing |
| `Dispatcher.Dispatcher.Accounting` | internal/dispatcher/dispatcher.go:60-81 | per channel: events popped, received or dropped, in pop order, followed by the buffer, are exactly the events emitted from its subscription to its close; the buffer is within capacity |
| `Dispatcher.SendAfterDrop` | internal/dispatcher/dispatcher.go:66-79 | after a drop, with receivers in between, there is room and the history gains exactly the event |
| `Dispatcher.EmitKeepsInv` | internal/dispatcher/dispatcher.go:60-81 | the accounting invariant is kept when every open channel has been offered the event |
| `Dispatcher.CloseKeepsInv` | internal/dispatcher/dispatcher.go:49-57 | removing a subscriber and closing its channel keeps the invariant, and the channel was not yet closed |
| `Dispatcher.ReceiversKeepInv` | internal/dispatcher/dispatcher.go:66-79 | any receivers, on any channels and any number of times, keep the invariant |
| `Dispatcher.SubscribeKeepsInv` | internal/dispatcher/dispatcher.go:24-42 | a new channel keeps the invariant |
| `Daemon.RunKeepsInv` | backend/daemon.go:210-292 | every interleaving of starts, stops and stop-all keeps the lock, starter, map and stopper invariants |
| `Daemon.DialLockExcludes` | backend/daemon.go:79-88 | two starters past the dial lock of one device are the same starter |
| `Daemon.OneSessionPerDevice` | backend/daemon.go:210-254 | each device has at most one session being dialled, held by its starter or in the map |
| `Daemon.OnlyRegistered` | backend/daemon.go:226-238 | in every run only registered devices are dialled, and every session created or listed belongs to one |
| `Daemon.InsertNeverOverwrites` | backend/daemon.go:240-254 | an insert never overwrites a listed session and enters the one dialled for that device |
| `Daemon.ExactlyOnePlace` | backend/daemon.go:210-292 | every session created is in exactly one place: its starter, the map, or one stopper |
| `Daemon.OverlapIff` | backend/daemon.go:210-292 | in every reachable state, a step gives a device a second open connection if and only if it is a dial of that device that succeeds while one of its sessions, taken from the map, is not yet stopped |
| `Daemon.DialOverlapsIff` | backend/daemon.go:228-254 | when a dial is about to succeed, its device has an open connection if and only if one of its sessions is being stopped |
| `Daemon.TwoConnectionsNeedStop` | backend/daemon.go:256-292 | of two open connections to one device one is being stopped |
| `Daemon.StopThenStartOverlap` | backend/daemon.go:256-279 | a run with two open connections to one device |
| `AckCode.Hex32` | events.go:229-237 | the loop writes the low eight hexadecimal digits, most significant first |
| `AckCode.FormatsAgree` | messages.go:23 | the digits of `hex32` and the receipt's "%08x" text agree for every 32-bit code |
| `AckCode.LowDigitsInjective` | events.go:229-237 | equal digit texts come from equal values |
| `AckCode.TextsMatchIffCodesDo` | events.go:229-237 | an ack's text equals a receipt's text if and only if the codes are equal |
| `MessageStore.Store.InsertMessage` | backend/sqlite_store.go:153-180 | appends the row, with the current time for a zero timestamp, returns its id, and leaves every other row |
| `MessageStore.Store.SetMessageStatus` | backend/sqlite_store.go:182-192 | row by row: the status of that row, and its code unless the new one is empty, and nothing else |
| `MessageStore.Store.RecordReceivedMessage` | backend/sqlite_store.go:194-220 | adds the hearing to the first incoming row of the same peer, text and timestamp, and inserts a row exactly when there is none |
| `MessageStore.Store.AppendAck` | backend/sqlite_store.go:222-267 | row by row: every outgoing row of that code gains the reception and is delivered, with the first ack time, and no other changes |
| `MessageStore.Store.MarkUnconfirmed` | backend/sqlite_store.go:269-276 | row by row: the outgoing rows of that code that are sent become unconfirmed and nothing else changes; an empty code changes nothing |
| `MessageStore.AckOverridesTimeout` | backend/sqlite_store.go:222-276 | an ack after the window overrides the unconfirmed status, and the end of the window after an ack changes nothing, so the two orders agree |
| `MessageStore.Store.Messages` | backend/sqlite_store.go:300-357 | on the fields of the rows: with no limit exactly the rows of the direction, kind, peer, channel and read flag asked for; with a limit the smaller number of them, none left out being earlier; by timestamp text and then id |
| `TextOrder.LessIff` | backend/sqlite_store.go:328 | texts compare at their first different character, a proper beginning first |
| `MessageStore.SelectInOrder` | backend/sqlite_store.go:328 | a query lists the selected rows in strictly ascending order of timestamp text and id, hence each once |
| `MessageStore.Store.MarkMessagesRead` | backend/sqlite_store.go:359-379 | marks exactly those ids read |
| `MessageRuns.NewRows` | backend/messages.go:62-117 | the row a send or a first hearing begins with: its letter, direction, status, time, read flag and receptions |
| `MessageRuns.RunKeepsRows` | backend/server.go:571-609 | in every reachable state an incoming row is received and has a hearing, and an outgoing row's status, code, ack time and receptions agree |
| `MessageRuns.StatusStep` | backend/server.go:571-609 | one action advances a row by at most one legal status change; an outgoing row gains a reception, and is delivered, exactly when the action acks its stored 32-bit code |
| `MessageRuns.StatusOnlyMovesForward` | backend/sqlite_store.go:182-276 | over any stretch of a run: queued, sent, unconfirmed, delivered or queued, failed only; ack time and code fixed once set; receptions accumulate; a sent row without code stays sent |
| `MessageRuns.ReceptionsAreAcks` | backend/sqlite_store.go:222-267 | over every run the receptions of an outgoing row are, in order, exactly the acks of its 32-bit code since that code was stored |
| `MessageRuns.DeliveredIffAcked` | backend/sqlite_store.go:222-267 | an outgoing row is delivered if and only if it has a reception, and its ack time is the first one's |
| `MessageRuns.HearingKeepsUniqueIff` | backend/sqlite_store.go:194-217 | recording a hearing keeps messages distinct if and only if it carries a time or no row has the time it would be stored with |
| `MessageRuns.TimelessHearingsDuplicate` | backend/sqlite_store.go:194-217 | two hearings without a time give two equal messages |
| `MessageRuns.ReceptionsEqualHearings` | backend/sqlite_store.go:194-217 | over every run the receptions on incoming rows number the hearings recorded |
| `MessageRuns.MessagesStayDistinct` | backend/sqlite_store.go:194-217 | over every run of timed hearings no two incoming rows share peer, text and timestamp |
| `MessageRuns.RepeatsIffUncommitted` | backend/messages.go:161-195 | a further inbox call repeats a message if and only if no call that handed it out committed its mark |
| `MessageRuns.QueryHandsOutAll` | backend/messages.go:161-195 | after an inbox query every incoming row has been handed out |
| `MessageRuns.HandedOutOnce` | backend/messages.go:161-195 | with serial calls whose marks commit, a message is handed out by one call only and once in it, even with drains between query and mark |
| `InboxDrain.Device.DrainMessages` | messages.go:99-149 | pops oldest first and for each message runs the callback then emits, before the next pop, stopping exactly at the first refusal or failed request |
| `InboxDrain.RoundsExact` | messages.go:99-117 | each message is popped, then handed to the callback, then emitted, message after message |
| `InboxDrain.EmissionsOfRounds` | messages.go:99-117 | the events of whole rounds are the messages, in order |
| `InboxDrain.RunKeepsInv` | backend/messages.go:15-59 | the wake-up and order invariants hold in every interleaving |
| `InboxDrain.NoWakeUpLost` | backend/messages.go:15-33 | for every signal observed a token is pending or a drain began since, unless the session stopped |
| `InboxDrain.NoMessageStranded` | backend/messages.go:15-59 | when the loop waits after a drain that saw the device's own empty reply, with no signal pending or on its way, the device is empty |
| `InboxDrain.StrandsIff` | backend/messages.go:15-59 | a step strands messages if and only if it is a drain failing, or ended by another request's reply, that leaves one behind while no signal is pending or on its way |
| `InboxDrain.StrandedIff` | backend/messages.go:15-59 | over every run: messages are stranded if and only if its last action, but for the return of the drain, is such a failure |
| `InboxDrain.DrainsInOrder` | backend/messages.go:38-59 | what the device buffered is, in order, what was popped, what is in hand and what is left; the callback ran on exactly the emitted messages and at most the one in hand |
| `InboxDrain.WholeDrain` | messages.go:99-117 | from any state a drain can run to the end, emitting all of the inbox in order |
| `InboxDrain.FailedDrainStrands` | backend/messages.go:38-59 | a run in which a failed drain leaves a message with no signal pending |
| `ContactSync.ContactsSince` | contacts.go:91-132 | for every stream: the device's error if and only if the first terminal frame is one, complete with exactly the contacts before it if it is an end, unfinished if and only if there is none |
| `ContactSync.CollectorExact` | contacts.go:91-132 | it returns exactly the contacts and marker the device streamed |
| `ContactSync.KeyExact` | backend/sqlite_store.go:452-455 | the row key is the public key or, without one, "name:" and the lower-case name |
| `ContactSync.Replica.UpsertContacts` | backend/sqlite_store.go:424-473 | inserts or replaces each contact under its public key or, without one, under its lower-case name |
| `ContactSync.Replica.SyncContacts` | backend/server.go:902-968 | succeeds if and only if the stream ended well and no call that was made failed; otherwise table and marker are what the calls before the failure left |
| `ContactSync.UpsertedAt` | backend/sqlite_store.go:424-473 | after an upsert of any list a row is the last contact with its key, or as it was when there is none |
| `ContactSync.IncrementalSyncExact` | backend/server.go:920-950 | from a covered replica, an incremental sync that completes leaves every device contact current with its mark up to the new marker, and other rows unchanged |
| `ContactSync.FullRefreshExact` | backend/server.go:920-950 | a full refresh that completes leaves exactly the device's contacts and a marker that covers them |
| `ContactSync.FullRefreshCoversIff` | backend/server.go:920-950 | for every stream and every failing call, a full refresh keeps coverage if and only if it stores the contacts or stops before clearing, or the marker claims no contact; a failure at the marker alone does no harm |
| `ContactSync.TouchIff` | backend/server.go:902-968 | a device change keeps coverage if and only if its mark is past the marker or the replica already holds it |
| `ContactSync.AdvertIff` | backend/server.go:1396-1407 | an observed advert keeps coverage if and only if it skips no contact out of date and stores no old version |
| `ContactSync.StagesAreSync` | backend/server.go:902-968 | the stages of a run taken without interruption are the sync, whatever the device streams and whichever call fails |
| `ContactSync.AdvertKeepsInvIff` | backend/server.go:1365-1408 | at every stage of a sync, an advert, marker-moving or not, keeps the coverage invariant if and only if its mark is one the device has used, it skips no contact out of date, and its contact is stored current and not overwritten by an older version in the answer under way |
| `ContactSync.RunKeepsInv` | backend/server.go:902-968 | the coverage invariant over every run of syncs and such adverts, marker-moving ones included, while the device changes |
| `ContactSync.ReplicaCovers` | backend/server.go:902-968 | after any such run every device contact whose mark the marker has reached is replicated at its current version, unless a full refresh cleared the replica and none has stored the contacts since |
| `ContactSync.AdvertSkipsContact` | backend/server.go:1400-1407 | a run in which an advert makes the replica skip a contact for good |
| `ContactSync.LateUpsertLosesAdvert` | backend/server.go:902-968 | a run in which the version an advert stored is overwritten by an older answer and the moved marker hides it |
| `ContactSync.FailedRefreshLosesContact` | backend/server.go:930-943 | a run in which a failed full refresh does |
| `StreamFrame.ByteWriter.Write` | transport/internal/streamframe/streamframe.go:22-33 | appends the marker, the length in two little-endian bytes and the payload, or refuses more than 8192 bytes and writes nothing |
| `StreamFrame.ByteReader.Read` | transport/internal/streamframe/streamframe.go:43-71 | result and remaining input are those of the specification, and it terminates |
| `StreamFrame.ReadAccepts` | transport/internal/streamframe/streamframe.go:43-71 | noise without marker, and with resynchronisation any number of bad headers, then a frame: read as that frame |
| `StreamFrame.ReadSound` | transport/internal/streamframe/streamframe.go:43-71 | whatever is read as a frame was such a gap and that frame |
| `StreamFrame.EveryInput` | transport/internal/streamframe/streamframe.go:43-71 | every input is a gap and an end, and the end alone decides the frame or the error (end of input, cut header or payload, oversized length) and what is consumed |
| `StreamFrame.ReadExact` | transport/internal/streamframe/streamframe.go:35-71 | both directions together |
| `StreamFrame.ResyncAgrees` | transport/internal/streamframe/streamframe.go:35-41 | the resynchronising reader agrees with the strict one whenever that succeeds |
| `StreamFrame.StreamReadsBack` | transport/internal/streamframe/streamframe.go:22-71 | any list of payloads of at most 8192 bytes, framed and separated by gaps, is read back exactly and in order |
| `Companion.AsyncIffHighBit` | protocol/companion/decode.go:15-122 | for every byte string the decoded message is a push if and only if the packet is non-empty with the high bit of its first byte set |
| `Companion.PrintableTokens` | protocol/companion/decode.go:646-666 | the loop's tokens are those of the specification |
| `Companion.TokensAreGood` | protocol/companion/decode.go:646-673 | every token has at least two printable characters and no space at either end, so the token tests never index outside it |
| `Companion.TrimString` | protocol/companion/decode.go:623-629 | the longest prefix without NUL |
| `Companion.DecodeTraceData` | protocol/companion/decode.go:496-525 | the decoder's loop, on every byte string, equals its specification |
| `Companion.TracePushDecodes` | protocol/companion/decode.go:496-525 | a trace push laid out by the firmware decodes to its tag, auth, flags and path and, for n hops, its n + 1 signal strengths |
| `PacketLayout.PlainLayout` | protocol/companion/decode.go:15-122 | packets without fields, error codes, short time and battery packets, and unknown codes, kept whole |
| `PacketLayout.NumberLayout` | protocol/companion/decode.go:45-70 | contact counts, last modification marks and the time: four little-endian bytes, 0 when cut |
| `PacketLayout.BatteryLayout` | protocol/companion/decode.go:52-56 | the battery voltage: two little-endian bytes |
| `PacketLayout.SentLayout` | protocol/companion/decode.go:373-385 | result, ack code and timeout of a sent packet cut at any byte, each 0 when cut off |
| `PacketLayout.ContactLayout` | protocol/companion/decode.go:309-345 | every field of a contact or of the advert of one, cut at any byte |
| `PacketLayout.SelfInfoLayout` | protocol/companion/decode.go:189-221 | every field of the self info, cut at any byte |
| `PacketLayout.ChannelInfoLayout` | protocol/companion/decode.go:354-366 | index, name and key of a channel, cut at any byte |
| `PacketLayout.ContactMessageLayout` | protocol/companion/decode.go:408-442 | every field of a contact message in both layouts, signed or not, cut at any byte |
| `PacketLayout.ChannelMessageLayout` | protocol/companion/decode.go:458-487 | every field of a channel message in both layouts, cut at any byte |
| `PacketLayout.StatsCoreLayout` | protocol/companion/decode.go:126-148 | core statistics, or none when cut |
| `PacketLayout.StatsRadioLayout` | protocol/companion/decode.go:149-160 | radio statistics, or none when cut |
| `PacketLayout.StatsPacketsLayout` | protocol/companion/decode.go:161-176 | packet statistics, or none when cut |
| `PacketLayout.SendConfirmedLayout` | protocol/companion/decode.go:283-293 | ack code and round trip of a confirmation, cut at any byte |
| `PacketLayout.AdvertLayout` | protocol/companion/decode.go:253-262 | key and name of an advert |
| `PacketLayout.ShortAdvertLayout` | protocol/companion/decode.go:253-262 | an advert too short for a key is a name |
| `PacketLayout.LoginLayout` | protocol/companion/decode.go:527-542 | every field of a login, cut at any byte |
| `PacketLayout.LoginFailLayout` | protocol/companion/decode.go:544-550 | the key prefix of a failed login |
| `PacketLayout.StatusTextLayout` | protocol/companion/decode.go:552-561 | a status too short for statistics is a prefix and a text |
| `PacketLayout.StatusStatsLayout` | protocol/companion/stats.go:35-60 | the eighteen repeater statistics, each at its offset |
| `PacketLayout.ControlLayout` | protocol/companion/decode.go:573-592 | the fields of control data, kept whole when cut in its header |
| `PacketLayout.DiscoverLayout` | protocol/companion/decode.go:601-621 | the fields of a node-discovery response, with 32 bytes of the key, or 8, or what there is |
| `PacketLayout.TraceLayout` | protocol/companion/decode.go:496-525 | header, path and signal strengths of a trace, each cut where the packet ends |
| `PacketLayout.TokensExact` | protocol/companion/decode.go:646-666 | the tokens of a packet are its printable texts between other bytes |
| `PacketLayout.DeviceInfoLayout` | protocol/companion/decode.go:229-251 | the first version, date and other text among the printable texts, in any order |
| `Companion.LE32RoundTrip` | protocol/companion/decode.go:496-508 | a 32-bit little-endian field reads back anywhere in a packet |
| `Channels.StoredNameIff` | protocol/companion/commands.go:214-222 | a name survives the codec if and only if it fits in 32 bytes and has no NUL |
| `Channels.CommandExact` | protocol/companion/commands.go:214-222 | the command byte by byte: code 32, slot, name and key, cut or padded with zeros |
| `Channels.ChannelRoundTrip` | protocol/companion/decode.go:354-366 | decoding the 50-byte command's fields gives back index, name and key |
| `Channels.Device.ChannelAt` | channels.go:108-118 | for every message that ends the request: an error exactly for a lost reply or a device error, the name and key of any channel info, whichever slot it is for, and its own slot's when it is its own reply |
| `Channels.SlotReadsBack` | channels.go:108-118 | what a slot was written with is read from it if and only if it fits |
| `Channels.Device.SetChannelAt` | channels.go:143-159 | the slot is written exactly when the device has it and the command reached it; success exactly for its own OK or a late one |
| `Channels.Device.Probe` | channels.go:175-190 | for every eight answers: a failed probe before a match, else the first match, else that there is none and the first slot taken for free |
| `Channels.Device.AddChannel` | channels.go:164-203 | for every answer to the queries and to the write: which error, or the slot chosen; nothing changes without a write |
| `Channels.ChooseExact` | channels.go:175-197 | an error exactly for a failed probe before any match, no slot exactly when none matches or is taken for free, else the first match or, without one, the first taken for free |
| `Channels.AddWritesOneSlot` | channels.go:164-203 | succeeding or failing, at most the chosen slot changes, and exactly when the device has it and the write reached it; it then reads back with the same name and key |
| `Channels.OwnWriteIsExact` | channels.go:194-203 | when the write gets its own reply, a success has stored the slot and a failure has changed nothing |
| `Channels.FailureStoresIff` | channels.go:143-159 | a failed addition has changed a slot if and only if the write reached the device and its reply was lost or replaced by a message other than OK |
| `Channels.FailedAddStores` | channels.go:143-159 | an addition that fails for a lost reply and has written its slot |
| `Channels.WriteKeepsDistinctIff` | channels.go:164-203 | a write keeps slot names distinct up to case if and only if the name as stored is no other slot's |
| `Channels.AddKeepsDistinctIff` | channels.go:164-203 | for every answer, adding keeps names distinct if and only if nothing is stored or the name as stored is no other slot's; for a storable name, that no other slot has it |
| `Channels.OwnProbesKeepDistinct` | channels.go:164-203 | when each query gets its own reply, adding a storable name keeps names distinct, whatever answers the write |
| `Channels.AdditionsKeepDistinct` | channels.go:164-203 | names stay distinct over every sequence of additions of storable names, failed ones included, whatever answers their writes |
| `Channels.CutNameClashes` | protocol/companion/commands.go:214-222 | a 33-byte name added successfully becomes, cut, the name of another slot |
| `Channels.HiddenSlotDuplicates` | channels.go:108-118 | a slot query answered by another kind of message makes the name be added twice |
| `Channels.LateInfoOverwrites` | channels.go:113-117 | with every reply one behind, adding a name overwrites another slot and fails: the name occurs twice and another is gone |
| `Hex.DecodeEncode` | protocol/pathhash/pathhash.go:224-226 | decoding the text of bytes gives them back |
| `Hex.EncodeInjective` | protocol/pathhash/pathhash.go:224-226 | two byte strings have the same text if and only if they are equal |
| `Hex.EncodeIsLower` | protocol/pathhash/pathhash.go:223-226 | the text of bytes is lower case |
| `Hex.DigitsExact` | protocol/pathhash/pathhash.go:198-201 | which characters are digits, upper case included, and what they are worth |
| `Hex.DecodesIff` | protocol/pathhash/pathhash.go:198-201 | text decodes if and only if it is an even number of hexadecimal digits |
| `PathHash.FlagsExact` | protocol/pathhash/pathhash.go:17-36 | the width of every flags byte and the flags of every width |
| `PathHash.MetaExact` | protocol/pathhash/pathhash.go:38-47 | the metadata byte of a width and a hop count gives them back |
| `PathHash.PathBytesExact` | protocol/pathhash/pathhash.go:49-106 | how much of the stored bytes is the path, and when there is a stored or a direct path |
| `PathHash.NearestIsLeast` | protocol/pathhash/pathhash.go:61-74 | the least supported width not below the one asked for, 8 above that |
| `PathHash.FlagsRoundTrip` | protocol/pathhash/pathhash.go:17-36 | a size has flags if and only if some flags byte decodes to it, and those flags do |
| `PathHash.TracePathFromOutPath` | protocol/pathhash/pathhash.go:111-146 | the loop, with its early break, equals the specification for every metadata byte and path |
| `PathHash.Split` | protocol/pathhash/pathhash.go:211-221 | equals the recursive specification for every path and size |
| `PathHash.SplitConcat` | protocol/pathhash/pathhash.go:211-221 | splitting joined hops of one width gives the hops |
| `PathHash.ConcatSplit` | protocol/pathhash/pathhash.go:211-221 | joining split hops gives the path |
| `PathHash.ParsePath` | protocol/pathhash/pathhash.go:179-208 | the loop equals the specification for every text |
| `PathHash.FieldsExact` | protocol/pathhash/pathhash.go:180 | any runs of blanks and commas separate, precede and follow the parts of a path |
| `PathHash.ParseAcceptsIff` | protocol/pathhash/pathhash.go:179-208 | a text is accepted if and only if its fields are hexadecimal hops of one supported width, at least one and at most 64 bytes in all |
| `PathHash.PrintParse` | protocol/pathhash/pathhash.go:179-226 | printing any non-empty list of equal-width hops and parsing it gives the same path, width and hops exactly when they fit in 64 bytes, and is rejected otherwise |
| `PathHash.ReprintParses` | protocol/pathhash/pathhash.go:179-226 | reprinting the hops of any accepted text parses to the same path, with as many hops as fields |
| `PathHash.IsHexTraceTarget` | protocol/pathhash/pathhash.go:159-175 | the nested loops decide the specification |
| `PathHash.TrimExact` | protocol/pathhash/pathhash.go:160 | any white space around a target is dropped, the Unicode spaces included, and nothing else |
| `PathHash.AcceptedIsTarget` | protocol/pathhash/pathhash.go:159-208 | every text taken as a path is a trace target |
| `PathHash.TargetParsesIff` | protocol/pathhash/pathhash.go:159-208 | a target is taken as a path if and only if it has only digits and separators, one supported width, and fits |
| `PathHash.TabbedTargetIsRejected` | protocol/pathhash/pathhash.go:159-208 | a tab before a path: a target, but rejected as a path |
| `TracePlan.StoredRouteExact` | protocol/pathhash/pathhash.go:111-146 | a route in 64 stored bytes becomes min(hops, 64 / width) hops, each the start of the matching stored hop, 3-byte hops cut to 2 |
| `TracePlan.StoredPlanFollowsRoute` | paths.go:300-307 | so does the plan of a contact with a stored route |
| `TracePlan.DirectPlanIsKeyPrefix` | paths.go:308-331 | without one the plan is a single hop of the key's first bytes, in the least width not below the hint, else the width of a direct route, else 2 |
| `TracePlan.PlanNames` | paths.go:30-55 | the source, name, hint and metadata a plan carries |
| `TracePlan.PlanIsWellFormed` | paths.go:30-55 | the plan's flags decode to its hash size, its path is non-empty, of length hop count times hash size, within 64 bytes |
| `TracePlan.FallbackPastKeyIff` | paths.go:314-331 | for keys of any length, the key is sliced past its end exactly for 3, 5, 6 or 7 bytes below the width wanted |
| `TracePlan.ShortKeySlicesPast` | paths.go:314-331 | a 3-byte key with a 4-byte hint |
| `TracePlan.ExplicitPlanIsWellFormed` | paths.go:232-257 | an explicit path is planned if and only if it parses, well-formed, with one hop per field |
| `ReturnTarget.TraceReturnTarget` | cmd/mc/internal/cli/messaging.go:286-306 | equals the specification for every text |
| `ReturnTarget.ReturnParses` | cmd/mc/internal/cli/messaging.go:286-306 | the return target of n hops, n at least 2, parses to the 2n - 1 hop palindrome that starts with the original path when that fits in 64 bytes, and is rejected otherwise |
| `PathHash.JoinMore` | cmd/mc/internal/cli/messaging.go:305 | parts are joined with commas and nothing else |
| `ReturnTarget.ReturnOtherwise` | cmd/mc/internal/cli/messaging.go:286-297 | a single hop is its own return target; every other text is refused, as no target or as a bad path |
| `HopIndex.TraceNameIndexFromContacts` | cmd/mc/internal/cli/messaging.go:584-602 | the nested loops build, under every prefix, what a scan over all contacts lists |
| `HopIndex.ContainsString` | cmd/mc/internal/cli/messaging.go:622-629 | membership |
| `HopIndex.ResolveExact` | cmd/mc/internal/cli/messaging.go:604-616 | a hop resolves to exactly the distinct non-empty names of contacts whose key starts with it, ascending; to none for a width other than 1, 2, 4 or 8 |
| `HopIndex.AmbiguousIff` | cmd/mc/internal/cli/messaging.go:604-616 | ambiguous if and only if two different names match; named if and only if exactly one does |
| `HopIndex.SortAscends` | cmd/mc/internal/cli/messaging.go:607 | sorting distinct names gives them in strictly ascending order |
| `Shell.SplitShellFields` | cmd/mc/internal/cli/shell.go:220-266 | the character loop equals the specification on every line, unfinished quotes and escapes included |
| `ShellGrammar.SplitExact` | cmd/mc/internal/cli/shell.go:220-266 | for every text: it splits into fields if and only if it is a line of whole tokens, and then into the fields these make |
| `ShellGrammar.SplitBroken` | cmd/mc/internal/cli/shell.go:254-263 | a line that ends in a backslash or inside a quotation is refused, for the backslash first |
| `ShellGrammar.LineSplits` | cmd/mc/internal/cli/shell.go:220-266 | fields in pieces of any kind, between any runs of blanks and tabs, split into exactly their values |
| `ShellGrammar.SingleQuoted` | cmd/mc/internal/cli/shell.go:238-247 | a single-quoted value is one field with its text, double quotes inside included |
| `ShellGrammar.EachEscaped` | cmd/mc/internal/cli/shell.go:230-237 | a backslash makes the next character literal, blanks and quotes included |
| `Shell.QuotesIff` | cmd/mc/internal/cli/shell_complete.go:458-466 | a value is left alone if and only if it is not empty and has no blank, tab, quote or backslash, and is double-quoted otherwise |
| `Shell.RunQuoted` | cmd/mc/internal/cli/shell_complete.go:458-466 | a quoted value without backslash is read as its original text |
| `Shell.RunLine` | cmd/mc/internal/cli/shell.go:220-266 | quoted values joined by spaces split into exactly those values |
| `Shell.BackslashBudget` | cmd/mc/internal/cli/shell.go:220-266 | unless a single quote was consumed, each double quote put out cost one backslash read and each backslash put out cost two |
| `Shell.SplitUndoesQuoting` | cmd/mc/internal/cli/shell_complete.go:458-466 | quoting, joining and splitting give the list back if and only if no value contains a backslash |
| `Shell.BackslashIsLost` | cmd/mc/internal/cli/shell_complete.go:458-466 | one value whose backslash is dropped and one whose quoted form never ends |

## Left out

- Update in place for the queue, the daemon's maps, the drain loop and the stages of a contact sync: these are state machines on values, because the interleavings are the point; the dispatcher, the store, the replica, the byte reader and writer and the devices are classes updated in place.
- Liveness: nothing is proved about how long a step takes; timeouts are steps that may happen at any moment they could be noticed.
- The queue's transport: a write either reaches the device or fails, with or without having reached it; partial writes and reconnection are not modelled.
- The client's ack, trace and discovery channels and its sync loop (client.go:219-264).
- Rows drop the peer name, text type, signal strength and creation time; a reception keeps its time, signal values and round-trip time. Times are the texts the table stores, whose order is not the order in time.
- MessageStore.Store.RecordReceivedMessage: the row found by an unordered `LIMIT 1` is taken to be the first match.
- Store calls are atomic and succeed, except for the status write that may be lost and the mark that may not commit; an ack that arrives before its code is stored is not recorded, as in the code.
- Row ids, subscription ids and modification marks do not wrap around; ack codes, trace tags and decoder fields have their widths.
- ContactSync.Replica.UpsertContacts: a contact's type, path and position are one opaque value beside its name, lower case is that of ASCII, and the times of the last advert and of storing are not part of a contact's version.
- ContactSync.AdvertIff: what an advert stores is given after its merge with the row it had, and storing it and moving the marker are one step.
- Ready, degraded and bridge state exclusivity, reconnection and the bridge.
- Companion.AsyncIffHighBit: signal strengths are kept in quarter-dB and coordinates in millionths of a degree rather than as floating point.
- Channels.Device.AddChannel: case folding is a parameter, and a write that reaches the device is stored before the call returns.
- InboxDrain.DrainsInOrder: a message reply that comes too late for its request counts as lost; that a later drain may still collect it is not modelled.
- Channel keys are opaque bytes: their derivation, and packet building, are not part of this model.
- TracePlan.PlanIsWellFormed: stated for 32-byte keys and out-paths of 0 or 64 bytes, which is what the device sends; `FallbackPastKeyIff` says what happens for other keys.
- HopIndex.SortAscends: names are compared character by character, which is byte order for valid UTF-8.
- Shell.SplitShellFields: text is a sequence of characters; invalid UTF-8 is not modelled.
- Completion words and caches, the chat view, rendering, durations, distances and QR codes.
- BLE, serial and TCP transports, SQLite itself, JSON, HTTP, WebSocket and the web frontend.
