# Properties of a BTP host

The host drives a Bluetooth device under test over the Bluetooth Testing Protocol (BTP). This project models
the engine beneath the test cases and proves what it keeps.

- **Frames and the stream.** `Frame.dfy`, `Stream.dfy` and `Socket.dfy` model the frame codec, a byte stream
  that is delivered in pieces with timeouts between them, and the socket's two gather loops. The reader returns
  exactly the frames that were sent if and only if no timeout elapses inside a frame.
- **Dispatch.** `Worker.dfy` models the receive thread that offers events to the event handler and queues
  everything else. Reads are paired with commands over whole runs, and exactly when they are not is stated.
- **Decoders.** `GattCodec.dfy`, `AttrList.dfy`, `AdData.dfy` and `Text.dfy` model the offset and
  remaining-length decoders of discovery responses, attribute lists and advertising data, and the texts of
  UUIDs, handles and addresses. Each decoder accepts exactly the encodings of what it returns.
- **Discovery.** `Server.dfy` is an attribute server in the terms of Bluetooth Core Specification Vol 3 Part G,
  sections 3 and 4.4 to 4.7. `Link.dfy` carries a command's response, among events, from the device through the
  stream, the receive thread and the queue. `GattDb.dfy` and `Discovery.dfy` are the client's database and its
  full discovery over that link. `Exactness.dfy` proves that discovery finds exactly the table without its
  characteristic values, although the descriptor ranges are computed from the database that descriptors are being
  added to. `ServerFetch.dfy` proves that the two server-side loops keep the same attributes, and that the
  client's database equals the server's exactly on tables without secondary services.
- **Listeners.** `Listeners.dfy` is the event handler as a class, whose invariant says that every listener gets
  the first event that matches it, once. `GapEvents.dfy` splits events into their single steps, over list objects
  with an identity, and interleaves them with the look-ups and appends of registrations and with clears; callbacks
  and predicates may raise. It proves when a listener can be released twice: never by clears between events, and
  for a clear at any other point the exact condition. `EventRuns.dfy` says for whole runs which registrations are
  lost, which event a listener gets, and that a released connection listener finds the connection in the map.
- **Settings.** `Settings.dfy` and `Gap.dfy` are the cached settings behind the guarded GAP commands.
  `SettingsRuns.dfy` sets them against a device that reports its full mask, with the update loops of the test
  thread and of the receiver thread interleaved bit by bit, and proves exactly when the cache mirrors the device.
- **GATT client procedures.** `GattCl.dfy` records every state that another thread can see while a response is
  handled, and proves that a procedure counts as done only when its list is complete.
- **Around the engine.** `Watermark.dfy` is the comment watermark of the GitHub poller. `Devices.dfy` is the
  choice of two devices.

Objects that the source updates in place are classes with `modifies` clauses; their methods are proved against
functions, and the theorems are about those functions. Sockets, clocks and threads appear as scripts of
deliveries, as parameters, or as interleaved steps.

## Model

| member | source | states |
|---|---|---|
| Frames.EncFrameRoundTrip | pybtp/parser.py:56-66 | a frame can be sent exactly if its payload has at most 32767 bytes, and what is sent is read back as the same frame |
| Frames.LongFrameNotEncodable | pybtp/parser.py:62 | a payload of 32768 bytes, which the reader takes, cannot be sent: the length is packed as a signed number |
| Frames.ReadMessageExact | pybtp/btp_websocket.py:109-125 | the whole-message reader accepts exactly the wire forms of frames, and returns the frame |
| Frames.WireBytes | pybtp/parser.py:29-66 | the five header bytes of a frame one by one, and the payload behind them |
| Sockets.BtpSocket.Read | pybtp/btp_socket.py:49-79 | one call of the reader takes from the stream and returns what the specification of one frame says |
| Sockets.BtpSocket.GatherRound | pybtp/btp_socket.py:56-59 | one round of a gather loop puts the next bytes of the stream behind those gathered so far, or ends it at a timeout |
| Sockets.BtpSocket.GatherInto | pybtp/btp_socket.py:56-59 | a gather loop fills its buffer with the next bytes of the stream, or stops at the first timeout |
| Streams.ReadFrameConserves | pybtp/btp_socket.py:49-79 | a call returns the frame at the front of the stream or loses bytes, and nothing else goes missing |
| Streams.ReadFrameExact | pybtp/btp_socket.py:49-79 | one call, in terms of the bytes before the first timeout: if they start with a frame, exactly that is returned and everything else stays; otherwise exactly those bytes are lost and everything behind the timeout stays |
| Streams.LossEndsAtTimeout | pybtp/btp_socket.py:51-77 | a call that returns nothing has lost the bytes up to the first timeout, or all if there is none; the content and the timeouts behind are untouched |
| Streams.ReceivedBetweenTimeouts | pybtp/btp_socket.py:49-79 | over any script, with timeouts anywhere: what is received is, between each two timeouts, the complete frames at the front of what arrived since the first |
| Streams.ReceiveAllConserves | pybtp/btp_socket.py:49-79 | every byte of the stream is in exactly one returned frame or among the lost ones |
| Streams.Reassembly | pybtp/btp_socket.py:49-79 | for every way to cut up the bytes of some frames, the frames come back in order if and only if every timeout falls between two frames |
| Streams.StreamAgreesWithMessage | pybtp/btp_websocket.py:109-125 | a message that the whole-message reader accepts is read as the same frame from a stream |
| Streams.TimeoutInsideFrame | pybtp/btp_socket.py:51-53 | a timeout after three header bytes loses the frame for good |
| Workers.BtpWorker.RxFrame | pybtp/btp_worker.py:45-55 | one frame is queued unless it is an event that the handler takes |
| Workers.BtpWorker.RxRound | pybtp/btp_worker.py:44-57 | one round receives at most one frame, in the order of the stream, and routes it |
| Workers.BtpWorker.RxTask | pybtp/btp_worker.py:42-57 | the receive thread queues what the routes of the received frames say, and runs on unless a callback raises |
| Workers.BtpWorker.Read | pybtp/btp_worker.py:63-83 | a read takes the oldest queued frame, or times out |
| Workers.Conservation | pybtp/btp_worker.py:42-57 | every received frame up to a callback that raises is either consumed by the handler or queued, once, and none after it |
| Workers.ResponsesAreQueued | pybtp/btp_worker.py:48-55 | every dispatched response is queued in order of arrival and none is consumed |
| Workers.QueueHoldsResponses | pybtp/btp_worker.py:48-55 | the queue holds exactly the dispatched responses if and only if every dispatched event finds a callback |
| Workers.TablesHandle | pybtp/btp.py:3899-3932 | events find a callback exactly if the stack is up when they arrive and the callback tables have them |
| Workers.StreamToQueue | pybtp/btp_worker.py:42-57 | from bytes in any pieces to the queue, up to a callback that raises: it holds the responses exactly if the stack is up for all events and they are in the tables |
| Workers.RunIsFifo | pybtp/btp_worker.py:63-83 | in every run, also past a callback that raises, what was read followed by what is queued is what was queued, in order |
| Workers.ReadsArePaired | pybtp/btp_worker.py:63-83 | the reads so far are the dispatched responses so far in order if and only if none of them returned an event |
| Workers.ReadsArePairedByArrival | pybtp/btp_worker.py:42-83 | the same in terms of what arrived: if and only if every event without a callback had at least as many frames queued before it as were read |
| Workers.CheckedReadsAnswer | pybtp/btp.py:307-321 | a host that reads one frame after each command and checks it against that command: whatever the device sends, the k-th read is the k-th response and has the service and the opcode of the k-th command |
| Workers.MispairingNoticed | pybtp/btp.py:307-321 | an event in the place of a response fails the check, unless the opcode is not named and the service is the same |
| Workers.DisciplinedStaysPaired | pybtp/btp_worker.py:42-83 | with one command at a time, one answer per command and callbacks for all events: what was read and what waits are the responses so far, at most one per command |
| Workers.KthReadIsKthResponse | pybtp/btp_worker.py:42-83 | in such a run the k-th read returns the k-th response, while the k-th command is the last one sent, however events interleave |
| Workers.UnhandledEventBreaksPairing | pybtp/btp_worker.py:48-55 | an event without a callback that arrives before a response is read in its place |
| Workers.OfferedExactly | pybtp/btp_worker.py:48-55 | exactly frames of services other than 0 with an opcode of 128 or more are offered, and the answer to the offer decides |
| Workers.CallbackTable | pybtp/btp.py:3899-3904 | the services and opcodes with a callback, by number; each is one that is offered |
| Workers.QueueHasNoCallback | pybtp/btp.py:3919-3932 | while the stack is up, no frame with a callback gets into the queue |
| Workers.OthersAreQueued | pybtp/btp_worker.py:48-55 | every dispatched frame of the core service, or with an opcode below 0x80, gets into the queue |
| Workers.BtpWorker.Close | pybtp/btp_worker.py:151-161 | after closing the receiver does not run and nothing is queued |
| Workers.BtpWorker.ResetRxQueue | pybtp/btp_worker.py:133-140 | the loop empties the queue |
| Link.ResponseIsQueued | pybtp/btp_worker.py:42-57 | of a response and any handled events around it, in any pieces with timeouts between frames, exactly the response is queued |
| Link.Host.Exchange | pybtp/btp.py:2273-2280 | a command over the link returns exactly the payload that the device answers, or the error of its status frame, whatever else arrives |
| Link.LinkExists | pybtp/btp_socket.py:49-79 | every table can be served over a link as the theorems assume |
| Link.Opcodes | pybtp/defs.py:116-121 | the opcodes of the four discovery commands and of their responses |
| Text.HandleTextRoundTrip | pybtp/btp.py:3053 | parsing the four-digit text of a handle gives the handle back |
| Text.HandleTextOrder | pybtp/btp.py:3012-3013 | texts of handles sort as the handles do |
| Text.Btp2UuidIsHex | pybtp/btp.py:1402-1407 | both branches of the conversion give the reversed bytes in upper-case digits, and other lengths fail |
| Text.UuidRoundTrip | pybtp/btp.py:1402-1407 | reading the text of a 2- or 16-byte UUID backwards restores its bytes |
| Text.UuidTextInjective | pybtp/btp.py:1402-1407 | two UUIDs with the same text are the same |
| Text.FormOfUuid | pybtp/btp.py:1402-1407 | the text of a 16-bit UUID digit by digit, high byte first |
| Text.FormOfHandle | pybtp/btp.py:3053 | the text of a handle digit by digit |
| Text.AddrRoundTrip | pybtp/types.py:40-41 | the address text of an event is sent back as the same bytes |
| Text.AddrTextRoundTrip | pybtp/types.py:40-41 | an address that can be sent, in either case and with or without colons, comes back as its lower-case digits |
| Text.FormOfAddress | pybtp/btp.py:1006 | the text of the bytes of an address, the later one first, in lower-case digits |
| GattCodec.DecodeEntries | pybtp/btp.py:2179-2208 | the decoding loop computes the entries that the offsets walk over |
| GattCodec.GattDecDiscRsp | pybtp/btp.py:2179-2208 | the decoder computes its specification for all four kinds |
| GattCodec.DiscRspExact | pybtp/btp.py:2103-2208 | decoding yields a list exactly when the response starts with that list's encoding |
| GattCodec.DiscRspRoundTrip | pybtp/btp.py:2103-2208 | any list of up to 255 entries of one kind, with UUIDs of up to 255 bytes, survives the round trip |
| GattCodec.EntryBytes | pybtp/btp.py:2103-2176 | the bytes of an entry of each kind, one by one |
| GattCodec.GattClDecDiscRsp | pybtp/btp.py:2548-2576 | the text decoder computes its specification |
| GattCodec.ClDecDiscRspRefines | pybtp/btp.py:2548-2655 | the text decoder succeeds exactly if the raw one does with UUIDs of 2 or 16 bytes only, and gives the same entries with their texts |
| AttrList.DecGattsGetAttrsRp | pybtp/btp.py:1472-1505 | the decoder with the running length computes its specification, and the length is always that of the rest |
| AttrList.DecRspExact | pybtp/btp.py:1472-1505 | decoding yields a list exactly when the data starts with that list's encoding |
| AttrList.AttrListRoundTrip | pybtp/btp.py:1472-1505 | any list of up to 255 attributes comes back unchanged |
| AttrList.AttrBytes | pybtp/btp.py:1472-1505 | the bytes of an attribute, one by one |
| AdData.ParseAd | pybtp/btp.py:465-480 | the parser terminates on every input and computes its specification |
| AdData.ParseAdExact | pybtp/btp.py:465-480 | parsing succeeds exactly on concatenations of complete non-empty structures, and undoes their encoding |
| AdData.PaddingRejected | pybtp/btp.py:471-476 | a zero length after the structures is an error, where the Core Specification ends the data |
| AdData.FoundUuids | pybtp/btp.py:495-504 | the search lists exactly the 16-bit UUIDs of the records of the two types |
| AdData.AdvertisedUuidIsFound | testcases/utils.py:58-67 | on any well-formed advertising data the scan predicate matches exactly the UUIDs that a record holds, and raises exactly if a record holds half a UUID |
| AdData.StructureBytes | pybtp/btp.py:465-504 | the bytes of a structure, and that types 2 and 3 carry 16-bit UUIDs |
| GattDb.InstancesExact | stack/gatt.py:267-283 | a sorted view lists exactly the attributes of its class, by ascending handle |
| GattDb.LastWriteWins | stack/gatt.py:210-220 | after any sequence of adding and clearing, a look-up gives what was stored last under the handle, unless the database was cleared since |
| GattDb.GattDB.FindByUuid | stack/gatt.py:222-260 | a search finds the match with the lowest handle, or there is none |
| GattDb.GattDB.FindCharacteristicEnd | stack/gatt.py:285-313 | the loop computes the end of a characteristic, and refuses other attributes |
| GattDb.CharacteristicEndExact | stack/gatt.py:285-313 | with nothing stored at the value handles there is no end exactly when the next entry follows two handles on; otherwise the end is before the next entry that is not a descriptor, or 0xffff |
| GattDb.DescriptorRangesExact | stack/gatt.py:285-313 | the ranges from behind each value to its end are not empty, ascend without overlap and hold no known attribute |
| GattDb.ContainmentIsPartialOrder | stack/gatt.py:321-327 | containment is reflexive and transitive, and databases are equal exactly when each contains the other, although equality ignores fields |
| GattDb.EqIsEquivalence | stack/gatt.py:109-154 | the attributes' equality is reflexive, symmetric and transitive |
| GattDb.EqMeans | stack/gatt.py:109-154 | two attributes are equal exactly if class and handle are the same and, for an include, its two handles, for any other its UUID |
| GattDb.MatchMeans | stack/gatt.py:222-260 | which class each search looks in, and for an include which UUID it compares |
| Discovery.HandleResponse | pybtp/btp.py:2273-2393 | a response handler decodes the payload and stores what it lists, up to the first UUID it cannot write |
| Discovery.GattcDiscFull | pybtp/btp.py:1824-1847 | the two loops, with every command over the link, compute full discovery on the device's table |
| Exactness.FetchFinds | pybtp/btp.py:2273-2393 | one command that can be sent and answered adds exactly the attributes that its query asks for |
| Exactness.EndInPartial | stack/gatt.py:285-313 | what the search for an end finds while descriptors of earlier characteristics were already added |
| Exactness.FullDiscovery | pybtp/btp.py:1824-1847 | discovery from any part of its own result: the database it leaves and the exception, passing over a missing end or, with the assertion, stopping at the first one |
| Exactness.PartialIsExpected | pybtp/btp.py:1824-1847 | that is everything if and only if the siblings of every known first descriptor were known |
| Exactness.DiscoveryIsExact | pybtp/btp.py:1824-1847 | from an empty database discovery leaves exactly the table without its characteristic values; a value at the last handle makes it end with struct.error after that |
| Exactness.DiscoverOverLink | pybtp/btp.py:1824-1847 | the same through frames, stream, receive thread and queue, for every cut of the stream between frames and any handled events among the responses |
| ServerFetch.ExactOnPrimary | pybtp/btp.py:1824-1847 | discovery is exact if and only if the table has no secondary service |
| Exactness.DiscoveryIsIdempotent | pybtp/btp.py:1824-1847 | discovering again changes nothing |
| Exactness.AssertionHolds | pybtp/btp.py:1841-1844 | with the assertion as written, discovery completes exactly when no characteristic is directly followed by a declaration or has its value at the last handle |
| Exactness.AssertionFails | pybtp/btp.py:1844 | a well-formed table on which the assertion fails |
| Exactness.KnownDescriptorHidesSibling | stack/gatt.py:295-298 | a descriptor next to one that was known beforehand is never found |
| Exactness.SiblingIsHidden | stack/gatt.py:295-298 | a well-formed table, and a database with one of its descriptors, on which discovery misses the other |
| Exactness.SmallTablesHaveRoom | pybtp/btp.py:2179-2190 | tables of fewer than 256 attributes always fit the responses |
| ServerFetch.GattServerFetchDb | pybtp/btp.py:1410-1469 | the loop with the set of value handles computes its specification |
| ServerFetch.GattsGetAttributeValues | pybtp/btp.py:1608-1629 | the loop with the previous declaration computes its specification |
| ServerFetch.DeclarationTexts | pybtp/btp.py:1427-1466 | the compared type texts name the four kinds of declaration and nothing else |
| ServerFetch.SetLoopExact | pybtp/btp.py:1410-1469 | on a well-formed table the set loop records every attribute but the values, as its declaration says |
| ServerFetch.DeclarationLoopExact | pybtp/btp.py:1573-1629 | so does the loop with the previous declaration |
| ServerFetch.BothLoopsKeepTheSame | pybtp/btp.py:1410-1629 | both loops keep the same handles |
| ServerFetch.DiscoveredNoSecondary | pybtp/btp.py:1824-1847 | discovery never records a secondary service, whatever the table |
| ServerFetch.ViewsAgree | stack/gatt.py:321-327 | the client's database equals the server's under the code's equality if and only if the table has primary services only |
| ServerFetch.ServerContainsClient | stack/gatt.py:321-322 | then the server's database contains the client's |
| ServerFetch.DiscoveredFields | pybtp/btp.py:1824-1847 | what full discovery stores for each attribute of a table, field by field |
| ServerFetch.FetchedFields | pybtp/btp.py:1410-1469 | what the first server-side loop stores for each attribute, field by field |
| ServerFetch.ParsedFields | pybtp/btp.py:1573-1629 | what the other loop keeps for each attribute, field by field |
| ServerFetch.UnreadableIsLeftOut | pybtp/btp.py:1418-1423 | an attribute that cannot be read is not recorded |
| ServerFetch.UnreadableIsPassedOver | pybtp/btp.py:1418-1423 | and the loop goes on as if it were not in the list |
| ServerFetch.DescribedExactly | pybtp/btp.py:1431-1469 | which readings can be recorded, and that the record keeps handle, permissions and response code |
| ServerFetch.PassedOverOnce | pybtp/btp.py:1427-1429 | the handle of a value is passed over once |
| ServerFetch.ContainedExactly | stack/gatt.py:321-327 | for two tables: the fetched database of the one contains the discovered one of the other exactly if every attribute of the latter but the values is in the former at the same handle, as the same kind with the same UUID bytes or, for an include, the same two handles |
| ServerFetch.ViewsTellApart | stack/gatt.py:321-327 | the two databases are equal exactly if the tables have the same handles, but for values, with the same kind and UUID bytes or include handles at each |
| ServerFetch.CompareViews | pybtp/btp.py:1824-1847 | from end to end: the client discovers one table over the link, the server side fetches another, and the code's comparison says exactly whether the second declares all that the first does |
| Listeners.FateIsFirstMatch | pybtp/btp.py:3883-3944 | a listener's fate over a history: the first later event with its key that its predicate accepts, or nothing if the listeners were cleared before |
| Listeners.BTPEventListener.Verify | pybtp/btp.py:3883-3891 | verifying stores the value exactly if it is accepted |
| Listeners.BTPEventHandler.WaitForEvent | pybtp/btp.py:3914-3917 | a new listener waits under its key, and every other listener is as before |
| Listeners.BTPEventHandler.Deliver | pybtp/btp.py:3936-3941 | exactly the listeners that accept the value take it and are released once |
| Listeners.BTPEventHandler.Call | pybtp/btp.py:3919-3945 | an event releases exactly the waiting listeners of its key that accept it, in any order of the rebuilt list; without a stack or callback nothing happens |
| Listeners.BTPEventHandler.ClearListeners | pybtp/btp.py:3906-3912 | every waiting listener is released without a result, and no list is left |
| Listeners.BTPEventHandler.FirstMatchAtMostOnce | pybtp/btp.py:3870-3945 | in every reachable state each listener was released at most once, with the first match; its predicate returns true of its result, and returned false of every event of its key while it waits; the lists hold exactly the unreleased ones |
| GapEvents.ReleasedAtMostOnce | pybtp/btp.py:3906-3944 | over all interleavings of the single steps of events with look-ups and appends of registrations, and with clears between events, each listener is released at most once |
| GapEvents.ClearIsSafeExactly | pybtp/btp.py:3906-3912 | a clear at any point keeps that for all that may follow if and only if it finds no listener that was released already or that the event in progress has in its hands |
| GapEvents.ExposedIsReleasedTwice | pybtp/btp.py:3936-3944 | otherwise the rest of the event and one more clear release a listener twice |
| EventRuns.ExposedByPhase | pybtp/btp.py:3935-3944 | where that is: nowhere between events; during an event, if its list has members (or had when they were collected); after a predicate raised, if the event had released listeners before |
| EventRuns.ClearAtStop | projects/android/iutctl.py:213-222 | the clear after the receiver thread has ended releases a listener again exactly if a predicate raised in an event that had released others |
| EventRuns.ReleasedAgainAtStop | projects/android/iutctl.py:213-222 | a run that ends with a predicate raising behind a release, and a clear that releases that listener again |
| EventRuns.ReleasedTwice | pybtp/btp.py:3906-3912 | a run with a clear in the middle of an event that releases a listener twice |
| GapEvents.StepIsSound | pybtp/btp.py:3906-3944 | every single step, a clear at any point included, keeps lists, registrations and releases consistent: what was released had the event's key and wanted its value |
| GapEvents.ReleasedAsWanted | pybtp/btp.py:3883-3891 | in every reachable state, whatever was interleaved: the predicate of a listener that was released with a value returns true of that value |
| GapEvents.RunKeeps | pybtp/btp.py:3906-3944 | in runs with clears between events the lists hold exactly the listeners that wait, but for those appended to a list out of use |
| EventRuns.LostExactly | pybtp/btp.py:3914-3917 | a registration is lost, and its listener never released, exactly if between its look-up and its append the list was replaced by a write-back of its key or a clear, or if at the append an event has collected the list and not written it back |
| EventRuns.RegistrationIsLost | pybtp/btp.py:3914-3917 | a run in which a listener is looked up for during an event and appended after it was collected, and is in no list then |
| EventRuns.StoredUntilReplaced | pybtp/btp.py:3943-3944 | a list object stays under its key exactly until a write-back of the key, or a clear |
| EventRuns.FirstWantedEvent | pybtp/btp.py:3934-3941 | the first event that the predicate of a waiting listener accepts releases it, with that event's value, before the loop ends, and that is its only release in the whole run |
| EventRuns.ConnectedIsLastWord | pybtp/btp.py:997-1041 | over all interleavings an address is in the map exactly if the last event about it was its connection |
| EventRuns.StatePrecedesRelease | pybtp/btp.py:3934-3941 | when a step releases a connection (disconnection) listener, the address is in (not in) the map, and stays so until the callback of the opposite event for it runs |
| EventRuns.ConnectionIsAsserted | testcases/utils.py:118-126 | so the assertion of the connection procedure holds |
| EventRuns.DisconnectionIsAsserted | testcases/utils.py:138-147 | whatever arrives after the release, the assertion of the disconnection procedure holds exactly if the device was not connected again and the last word on every other address was its disconnection |
| EventRuns.OtherDeviceStaysConnected | testcases/utils.py:138-147 | so with a second device connected it fails |
| Gaps.Gap.ConnectedEv | pybtp/btp.py:997-1015 | the callback adds the decoded address and its parameters, or raises on short data |
| Gaps.Gap.DisconnectedEv | pybtp/btp.py:1025-1041 | the callback removes the decoded address, or raises on short data or an address that is not connected |
| Gaps.ConnectionBytes | pybtp/btp.py:997-1041 | the two events by number, the lengths they need, and which byte goes into which field |
| Gaps.SameDevice | pybtp/btp.py:997-1041 | two events name the same device exactly if their first seven bytes are the same |
| Gaps.Gap.CurrentSettingsUpdate | pybtp/btp.py:446-450 | afterwards the sixteen flags mirror the mask, whatever they were |
| Gaps.Gap.ApplyAnswer | pybtp/btp.py:437-450 | an answer of exactly four bytes makes the cache mirror its mask; any other is an error that leaves the cache |
| Gaps.Gap.NewSettingsEv | pybtp/btp.py:946-955 | an event of at least four bytes makes the cache mirror its mask |
| Gaps.Gap.Command | pybtp/btp.py:679-751 | a guarded command is skipped exactly if a device that the cache mirrors is already as requested; otherwise the cache mirrors the answer |
| Settings.FlagsAt | pybtp/types.py:20-37 | the sixteen names are distinct: each flag is its own bit |
| Settings.FlagsAgree | pybtp/btp.py:446-450 | two masks give the same flags exactly if their low sixteen bits agree |
| Settings.FlagsAreLowBits | pybtp/btp.py:446-450 | two masks give the same flags exactly if they are equal modulo 0x10000 |
| Settings.FlagsByName | pybtp/types.py:20-28 | the first eight names, and the power of two that each stands for |
| Settings.FlagsByNameHigh | pybtp/types.py:29-36 | the other eight |
| Settings.MaskBytes | pybtp/btp.py:443-444 | the mask of four bytes, low byte first |
| Settings.GuardsByName | pybtp/btp.py:679-751 | which requests are skipped on which value of which flag, by name |
| SettingsRuns.CoherentExactly | pybtp/btp.py:446-450 | over all interleavings of the two threads' update loops, bit by bit, once all is applied: the sixteen flags are the device's if and only if every flag that the test thread wrote last, from an answer, is as the device has it now |
| SettingsRuns.LastEventDecides | pybtp/btp.py:934-955 | if the last message is an event: the cache is right if and only if no answer was queued or being applied when it was taken up, or no bit on which that answer and the event differ is written by the answer after the event |
| SettingsRuns.LastAnswerIsRight | pybtp/btp.py:679-751 | if the last message is an answer, the cache is right |
| SettingsRuns.CacheIsCoherent | pybtp/btp.py:435-561 | from any cache, in a run in which no event is taken up while an answer is queued or being applied, the flags are the device's once all is applied, and a command is skipped exactly if the device is as requested |
| SettingsRuns.Interleaved | pybtp/btp.py:446-450 | an event handled between any two bits of an answer leaves the event's flags below and the answer's from there on |
| SettingsRuns.LateAnswerMisleads | pybtp/btp.py:679-689 | a run in which no event overtakes a queued answer, and yet a request is skipped although the device is not as requested |
| SettingsRuns.FlagsThatNeverWere | pybtp/btp.py:446-450 | a run that leaves two flags set which the device never had set together |
| SettingsRuns.EntryIsFlag | stack/gap.py:160-172 | setting one dictionary entry changes one flag |
| SettingsRuns.DictionaryMirrors | pybtp/btp.py:446-450 | the dictionary is the one of a mask exactly if its sixteen flags are the mask's bits |
| Settings.UnreadCacheMisleads | stack/gap.py:84-103 | on the flags of a new object a request is handled rightly exactly if it is to switch on or the device has it off |
| GattClient.CountIsShared | pybtp/btp.py:3116-3125 | the handler's count is the number of entries that the decoder finds, as both read the same byte |
| GattClient.ChrcsNotEarly | pybtp/btp.py:3103-3145 | at every moment of the handler that counts as done the list is complete, unless a zero count was left over and the response counts more |
| GattClient.DescsNotEarly | pybtp/btp.py:3192-3225 | the same of the descriptor handler, which resets twice |
| GattClient.ServicesNotEarly | pybtp/btp.py:3023-3059 | the same of the service handler |
| GattClient.ChrcRequestToResponse | pybtp/btp.py:2722-2728 | from the request until the handler ends there is no early completion, and at the end the procedure is done exactly if the response could be decoded |
| GattClient.DescRequestToResponse | pybtp/btp.py:2805-2810 | the same for descriptors |
| GattClient.ServiceRequestIsStale | pybtp/btp.py:2667-2694 | the service requests reset nothing: for each response, there is no early completion exactly if no smaller zero count was left over and the procedure was not done before with another list |
| GattClient.ChrcsTornExactly | stack/gatt_cl.py:64-65 | with the list and the count read at two moments in order: no early completion from the end of the resets on, and from the request on exactly if the old list has not the length of the new count |
| GattClient.ServicesTornExactly | stack/gatt_cl.py:52-53 | the same without resets: exactly if the procedure was not done before with anything but an empty result that is also the new one, and the old list has not the length of the new count |
| GattClient.ChrcsDoneBeforeStored | pybtp/btp.py:3137-3143 | the characteristic procedure is done when its database is still the old one |
| GattClient.ChrcsStoredExactly | pybtp/btp.py:3137-3143 | so a reader of a done procedure sees the database that the handler leaves exactly if it held all of the response's characteristics before |
| GattClient.DoneBeforeLastIsStored | pybtp/btp.py:3220-3225 | the other procedures are done when at most the last entry is not stored |
| GattClient.GattCl.RequestChrcs | pybtp/btp.py:2726-2728 | the count is forgotten, then the list |
| GattClient.GattCl.RequestDscs | pybtp/btp.py:2808-2810 | the same for descriptors |
| GattClient.GattCl.ChrcsRsp | pybtp/btp.py:3103-3145 | the handler goes through exactly the specified moments |
| GattClient.GattCl.DscsRsp | pybtp/btp.py:3192-3225 | the same for descriptors |
| GattClient.GattCl.PrimSvcsRsp | pybtp/btp.py:3023-3059 | the same for services found by UUID |
| GattClient.ChrcsFromWire | pybtp/btp.py:3103-3145 | from the bytes of a response: afterwards the list has the value handle and the UUID of each entry in order, and the database at each handle the last entry declared there, with its properties and value handle, and is as before elsewhere |
| GattClient.DescsFromWire | pybtp/btp.py:3192-3225 | the same for descriptors, listed by handle and UUID |
| GattClient.ServicesFromWire | pybtp/btp.py:3023-3059 | the same for services, listed by start handle, end handle and UUID |
| Watermark.PollsJoin | cron/github_cron.py:117-162 | polls one after the other return what one poll of all their comments would |
| Watermark.RecordsExact | cron/github_cron.py:141-160 | a comment is returned exactly if it passes the filters and its id exceeds all ids before it |
| Watermark.ContainsExactly | cron/github_cron.py:144 | a text contains another exactly if that is a slice of it |
| Watermark.MagicTagExactly | cron/github_cron.py:151-158 | the tag found is the first of the list that the body starts with |
| Watermark.AcceptsExactly | cron/github_cron.py:144-158 | a comment passes exactly if its address contains "pull", its author is permitted and its body starts with a tag |
| Watermark.NoCommentTwice | cron/github_cron.py:141-145 | the returned ids increase strictly |
| Watermark.MissedExactly | cron/github_cron.py:130-145 | an accepted comment is returned when it first appears exactly if no greater id appeared before it |
| Watermark.EarlierCommentIsMissed | cron/github_cron.py:141-145 | of two accepted comments that come in the other order than their ids, the second is never returned |
| Watermark.GithubCron.GetPrCommentsWithMagicTag | cron/github_cron.py:117-162 | over any number of polls since a reset, what was returned are the accepted records of the whole stream |
| Watermark.GithubCron.SetPullTimeOffset | cron/github_cron.py:212-214 | a reset forgets what was seen |
| Devices.FromSerialsOrAuto | projects/android/iutctl.py:230-255 | only listed devices, never one in both roles, a pair exactly if there are two, wishes honoured but for one device wanted twice, otherwise the first that is free |
| Devices.GetSuitableIuts | cron/common.py:308-315 | the devices for the operating system in order, or an error if there are none |
| Devices.SuitableExact | cron/common.py:308-315 | those are exactly the configured devices that support it |
| Devices.SuitableInOrder | cron/common.py:308-315 | the suitable devices keep the order of the configuration |
| Devices.PairsExist | cron/common.py:326-345 | looking at the first two of each list never misses two different devices, and finds nothing else if the serials are distinct |
| Devices.EarlyDiffer | cron/common.py:334-348 | whatever serials are configured, the chosen devices differ exactly if those at the front of the lists do |
| Devices.SharedSerialTakesBothRoles | cron/common.py:340-345 | two entries with one serial take both roles although another device is configured |
| Devices.CreateRunOptions | cron/common.py:317-359 | suitable devices are chosen whenever two different ones exist, the first ones possible; they differ exactly if the serials at the front of the lists do, and always if all serials are distinct |

## Left out

- Exactness.DiscoveryIsExact: only for answers of fewer than 256 entries each; with more, the one-byte count of a response does not hold them, and the modelled device answers with a status frame.
- Discovery.GattcDiscFull: the source reads `char.value_hdl` (pybtp/btp.py:1842) where the field is `value_handle` (stack/gatt.py:164), so that line raises AttributeError as written; the model reads `value_handle`. The loop that passes over characteristics without an end is the one of defensics/testcase_handler.py:95-100.
- Link.Host.Exchange: one response per command, complete or a status frame. A device that reports a search in parts, or not at all, is not part of this model.
- ServerFetch.GattServerFetchDb: pybtp/btp.py:1418 and pybtp/btp.py:1614 call `gatts_get_attr_val` without its address argument; the model takes the read as a function of the handle.
- Streams.Reassembly: a closed peer, for which `recv_into` returns 0 and the gather loops never end, is excluded: every piece has at least one byte.
- Listeners.BTPEventHandler.Call: one event, one registration or one clear at a time, and predicates that do not raise. GapEvents has the single steps, and predicates that raise.
- GapEvents.ReleasedAtMostOnce: a look-up in the nested dictionaries, with the default it may create, is one step, and so is a clear.
- SettingsRuns.CacheIsCoherent: the device obeys every command. A command that is refused raises at the host and leaves the cache as it is.
- Gaps.Gap.Command: the encoding of the commands' parameters, such as the data of `gap_adv_ind_on`, whose scan response puts types and lengths into the wrong buffer (pybtp/btp.py:528-536).
- GattClient.GattCl.PrimSvcsRsp: handles are numbers in the model's database. `gatt_cl_disc_all_prim_rsp_ev_` and `gatt_cl_find_incld_rsp_ev_` store under the text of the handle instead, so that a database filled by several procedures has keys of two types and cannot be sorted.
- Watermark.GithubCron.GetPrCommentsWithMagicTag: comments beyond the first page of 100, comments that lack a field, and the start of the jobs.
- Devices.CreateRunOptions: the text of the options.
- `Gatt.find_characteristic_end` (stack/gatt.py:64-95): the same algorithm on tagged tuples.
- `BTPWorker.send` and `send_wait_rsp`: conversions of the payload, and a call with the wrong arguments.
- The Defensics variant that sends start equal to end when nothing follows a characteristic (defensics/testcase_handler.py:102-104).
- Mesh, L2CAP and pairing commands, and the remaining callbacks: they pack, unpack and store.
- Sockets, serial lines, D-Bus, processes, files, mail, logging, and all timers and clocks.
- `pr_choose_start_time`, the `schedule` library and `report_to_review_msg`.
