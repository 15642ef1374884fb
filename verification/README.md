# Verified models of five components

A Dafny project that models five components of the repository and proves what they are for.

1. **libev's event core.** `Wakeup.dfy` is the cross-thread wake-up protocol as a state machine over single memory
   accesses. `TimerHeap.dfy` is the 4-heap with back-pointers, used by `Timers.dfy` and `Periodics.dfy` for starting,
   stopping and expiring. `Dispatch.dfy` has the pending queues by priority, and `Deliveries.dfy` what callbacks are told.
   `FdBackends.dfy` has the tables of the poll and select backends, `FdLoop.dfy` the lazy change list that keeps them in
   step with the io watchers, and `FdDelivery.dfy` what a reported event leads to.
2. **Mini-XML.** `XmlText.dfy` gives the printer and the parser as functions on characters, `XmlBytes.dfy` the printer on
   the bytes of UTF-8 strings, `XmlIo.dfy` both as the loops that run. `XmlReferences.dfy` says what character references
   mean, `XmlDocument.dfy` which tree a document in any layout is loaded as, `XmlRoundTrip.dfy` that what is printed is such
   a document, and `XmlLayout.dfy` where lines break. `Utf8.dfy` is the character codec with the growing buffer.
   `XmlTree.dfy` has the pointer tree, `XmlWalk.dfy` the walk without a stack and the element search, `XmlIndex.dfy` the
   sorted index with bisection.
3. **The network ring buffer.** `NetBuffer.dfy` proves that the circle of blocks is one byte queue.
4. **The event loop wrapper.** `Gev.dfy` is the operation queue, the wake-up pipe and the reference counts, as a state
   machine over the steps of the loop thread and of any other threads.
5. **The Base64 codecs.** `Base64.dfy` is the text of RFC 4648, `GBase64.dfy` the incremental codec, `HmBase64.dfy` the
   one-shot codec; `Octets.dfy` holds what they share.

`Sequences.dfy` has what several of them need of sequences.

Where the code updates state in place, the model is a class or a method with loops, and its contract ties the new state to
a function of the old one; what the source promises is proved about those functions. Five promises turned out to hold
under a condition only. They are proved with the exact condition, and with an input that fails: encoding in chunks
(`GBase64.EncodeChunks`, `GBase64.ChunkingMatters`), decoding in chunks (`GBase64.ChunkedDecoding`,
`GBase64.DecodingMatters`), the buffer size of the one-shot encoder (`HmBase64.TextFits`, `HmBase64.TooLittle`), searches of
the index by value only (`XmlIndex.ValueSearchExact`, `XmlIndex.ValueSearchFails`), and walks that stay below their start
(`XmlWalk.WalkStaysBelow`, `XmlWalk.WalkLeaves`).

`dafny verify dfyconfig.toml` checks the whole project.

## Model

| member | source | states |
|---|---|---|
| Wakeup.LoopKeepsInv | 3rdparty/libev-4.19/ev.c:2277-2339 | every access of the loop thread (blocking section of `ev_run`, `pipecb`) keeps the protocol invariant, for any number of senders |
| Wakeup.SenderKeepsInv | 3rdparty/libev-4.19/ev.c:2227-2272 | every access of a sender in `evpipe_write` keeps the protocol invariant |
| Wakeup.ReachableInv | 3rdparty/libev-4.19/ev.c:3402-3464 | the invariant holds in every state of every interleaving |
| Wakeup.CompletedSendsAreFedOrOwed | 3rdparty/libev-4.19/ev.c:4703-4707 | a call of `ev_async_send` that has returned has been followed by a feed of its watcher, or the loop still has that feed ahead of it |
| Wakeup.NoLostWakeup | 3rdparty/libev-4.19/ev.c:3402-3464 | a loop that blocks in its poll while a flag is raised and no sender is midway has a readable pipe |
| Wakeup.OwedSourceIsFed | 3rdparty/libev-4.19/ev.c:2227-2339 | a run with more productive steps than a fixed bound has fed every source that was owed a feed |
| Wakeup.OwedMakesProgress | 3rdparty/libev-4.19/ev.c:2227-2339 | while a feed is owed some productive step is enabled, and the loop is not stuck in a poll of an empty pipe |
| Wakeup.FeedsNeedSends | 3rdparty/libev-4.19/ev.c:2277-2339 | in every run, between any two of its states, a source is fed at most once for each send of it that begins there, and once more if it was marked at the start |
| Wakeup.NoFeedWithoutSend | 3rdparty/libev-4.19/ev.c:2227-2339 | from the start, before the n-th feed of a source at least n sends of it have begun |
| Wakeup.SendBetweenFeeds | 3rdparty/libev-4.19/ev.c:2324-2339 | between two feeds of a source a send of it begins |
| Wakeup.CallsNeedRequests | 3rdparty/libev-4.19/ev.c:2227-2339 | in every run the callback of the pipe begins at most as often as senders have written to the pipe or left a request, so that the loop does not spin |
| Wakeup.WritesWereWanted | 3rdparty/libev-4.19/ev.c:2240-2272 | a sender writes to the pipe at most once for each time it found the loop waiting |
| Wakeup.RequestTakenBack | 3rdparty/libev-4.19/ev.c:2227-2339 | what a sender that is going to write, or the callback, takes back stays so until a sender leaves a new request |
| NetBuffer.NetBuf.LastPos | hm-libs/hmnet/src/hm_netbuf.c:122-136 | finds the last busy block of the circle, or none |
| NetBuffer.NetBuf.WriteOk | hm-libs/hmnet/src/hm_netbuf.c:141-150 | one more block is busy, and `no_blocks` holds exactly when all are |
| NetBuffer.NetBuf.FlushOk | hm-libs/hmnet/src/hm_netbuf.c:155-173 | the oldest block is free again, and the sentinel index stands exactly for an empty circle |
| NetBuffer.NetBuf.Flush | hm-libs/hmnet/src/hm_netbuf.c:186-225 | what the flusher has accepted and what is still buffered is one byte string that a flush does not change; it goes on until the flusher takes less than a block, fails, or nothing is left, and no BUG() is reached |
| NetBuffer.NetBuf.Append | hm-libs/hmnet/src/hm_netbuf.c:253-289 | with an empty circle the flusher takes a prefix of the data, otherwise the last block takes all of it or nothing; when each return value arises |
| NetBuffer.NetBuf.Write | hm-libs/hmnet/src/hm_netbuf.c:295-328 | a write is taken as a whole or not at all, at the end of the byte queue; when it is refused, and when it goes straight to the flusher |
| NetBuffer.Run | hm-libs/hmnet/src/hm_netbuf.c:185-352 | after any writes and flushes, with any flusher, the accepted bytes and then the buffered ones are the taken writes in order |
| NetBuffer.Alloc | hm-libs/hmnet/src/hm_netbuf.c:102-116 | an allocated buffer is empty and valid; when none is returned |
| NetBuffer.QueueFirst | hm-libs/hmnet/src/hm_netbuf.c:186-225 | the byte queue starts with the bytes of the oldest block, around the end of the circle |
| TimerHeap.Parent | 3rdparty/libev-4.19/ev.c:2036 | HPARENT with the truncation of C: the parent of a position is before it, and the root is its own |
| TimerHeap.ChildParent | 3rdparty/libev-4.19/ev.c:2035-2050 | a position is among the four children of exactly its parent |
| TimerHeap.UpHeap | 3rdparty/libev-4.19/ev.c:2121-2139 | restores heap order and back-pointers if only the moved element is too small, and permutes the elements |
| TimerHeap.DownHeap | 3rdparty/libev-4.19/ev.c:2041-2081 | restores heap order and back-pointers if only the moved element is too large, and permutes the elements |
| TimerHeap.MinChild | 3rdparty/libev-4.19/ev.c:2050-2066 | selects the least of up to four children, on the fast and on the slow path |
| TimerHeap.ReplacedElement | 3rdparty/libev-4.19/ev.c:2143-2149 | replacing any one element of a heap leaves the children of the hole not less than its parent |
| TimerHeap.AdjustHeap | 3rdparty/libev-4.19/ev.c:2143-2149 | is correct after the replacement of any single element |
| TimerHeap.ReHeap | 3rdparty/libev-4.19/ev.c:2153-2161 | makes a heap of any array, with the same elements |
| TimerHeap.RootIsLeast | 3rdparty/libev-4.19/ev.c:2903-2915 | in heap order no element is before the root |
| TimerHeap.TimeHeap.Start | 3rdparty/libev-4.19/ev.c:3674-3694 | adds exactly the watcher; order, back-pointers and cached times are kept |
| TimerHeap.TimeHeap.Stop | 3rdparty/libev-4.19/ev.c:3698-3725 | removes exactly the watcher, by its back-pointer; order, back-pointers and cached times are kept |
| TimerHeap.TimeHeap.Reschedule | 3rdparty/libev-4.19/ev.c:3728-3752 | a new time for one watcher changes neither the set of active watchers nor the other times |
| TimerHeap.TimeHeap.Located | 3rdparty/libev-4.19/ev.c:2903-2915 | `active` of a member is its index in the heap |
| TimerHeap.TimeHeap.NoneBefore | 3rdparty/libev-4.19/ev.c:3121-3155 | if the root is not due, no active watcher is |
| Dispatch.Queues.FeedEvent | 3rdparty/libev-4.19/ev.c:1786-1802 | a pending watcher gets the events added to its slot, another one a new slot on top of its priority |
| Dispatch.Queues.ClearPending | 3rdparty/libev-4.19/ev.c:3576-3600 | the slot of the watcher is taken out of the abstract stack and its events are returned; a cleared watcher leaves a dummy behind |
| Dispatch.Queues.PopSlot | 3rdparty/libev-4.19/ev.c:3083-3088 | takes the top slot of a priority and resets `pending` of its watcher |
| Dispatch.Queues.FeedReverseDone | 3rdparty/libev-4.19/ev.c:1812-1818 | feeds the collected watchers backwards |
| Dispatch.Queues.InvokePending | 3rdparty/libev-4.19/ev.c:3075-3092 | for every script of what the callbacks feed, clear, stop or invoke recursively, the calls are those of the drain function on the abstract stacks, and all queues are empty at the end |
| Dispatch.DrainedLeads | 3rdparty/libev-4.19/ev.c:3075-3092 | every call of a drain is of the top of the highest priority that is not empty at that moment, of a watcher that still is pending |
| Dispatch.DrainObeys | 3rdparty/libev-4.19/ev.c:3075-3092 | a drain feeds nothing if its callbacks feed nothing, and clears nothing if they clear nothing |
| Dispatch.LiveClear | 3rdparty/libev-4.19/ev.c:3576-3583 | a slot that is overwritten with the dummy watcher disappears from the abstract stack, and nothing else does |
| Dispatch.LiveFeed | 3rdparty/libev-4.19/ev.c:1790-1791 | events added to a slot appear at the same place of the abstract stack |
| Dispatch.CallsUnwind | 3rdparty/libev-4.19/ev.c:3075-3092 | if callbacks feed nothing, the calls of one priority are the stack from its top down, less what is cleared; whole if nothing is |
| Dispatch.CalledOrCleared | 3rdparty/libev-4.19/ev.c:3075-3092 | a watcher on a stack is called, or cleared, or still there; other watchers do not drive it out |
| Dispatch.FedBackwardsCalledForwards | 3rdparty/libev-4.19/ev.c:1805-1818 | watchers that are fed backwards onto empty queues are called forwards within each priority, whatever callbacks do but feed; only cleared ones are missing |
| Deliveries.CallsDeliver | 3rdparty/libev-4.19/ev.c:1786-1802 | in every run of feeds, clears and calls a watcher is pending exactly with what was fed to it since its last call or clear, and a call delivers just that |
| Deliveries.DrainDelivers | 3rdparty/libev-4.19/ev.c:3075-3092 | the same for all calls of `ev_invoke_pending`, whatever its callbacks do; afterwards nothing is pending |
| Deliveries.DrainDoes | 3rdparty/libev-4.19/ev.c:3075-3092 | what is fed and cleared in a drain is exactly what the callbacks that ran feed and clear, recursive drains included |
| Timers.TimerLoop.TimerStart | 3rdparty/libev-4.19/ev.c:3674-3694 | a stopped timer becomes active at its time from now; a started one stays as it is |
| Timers.TimerLoop.TimerStop | 3rdparty/libev-4.19/ev.c:3698-3725 | the timer is neither active nor pending; its time is what was left |
| Timers.TimerLoop.TimerAgain | 3rdparty/libev-4.19/ev.c:3728-3752 | a repeating timer is due its repeat value from now, another one is stopped, and neither is pending |
| Timers.TimerLoop.TimersReify | 3rdparty/libev-4.19/ev.c:3121-3155 | terminates, feeds exactly the due timers, each once and in the order of their times, and leaves none due; repeating timers go on, others stop, which clears what they had pending before |
| Timers.FiredBook | 3rdparty/libev-4.19/ev.c:3130-3149 | one more expiration changes exactly one timer: it gets its next time, or it stops |
| Timers.OnSchedule | 3rdparty/libev-4.19/ev.c:3130-3141 | after any number of expirations the time of a repeating timer is not before its first time plus that many repeats, and equal to it if and only if it never was late by more than the repeat |
| Timers.ExpiredRunInOrder | 3rdparty/libev-4.19/ev.c:1805-1818 | feeding in expiry order onto empty queues, after clearing what was stopped, makes the calls of each priority come in expiry order, for callbacks that clear or invoke but do not feed |
| Timers.TimerLoop.RunDue | 3rdparty/libev-4.19/ev.c:3121-3155 | when nothing was pending, and for all callbacks that feed nothing, `timers_reify` and then `ev_invoke_pending` call due timers only, each at most once, those of one priority in nondecreasing order of expiry, and all but those that a callback clears |
| Periodics.EvFloor | 3rdparty/libev-4.19/ev.c:1390-1421 | the replacement function is the floor of every real number |
| Periodics.PeriodicRecalc | 3rdparty/libev-4.19/ev.c:3160-3181 | terminates with a time after now and at most one interval later, which is a step of the interval from the offset |
| Periodics.NextTimeIsFirst | 3rdparty/libev-4.19/ev.c:3160-3181 | that time is the least offset plus a multiple of the interval above now |
| Periodics.LastTick | 3rdparty/libev-4.19/ev.c:3162-3168 | one division finds the last step of the interval that is not after now |
| Periodics.PeriodicLoop.PeriodicStart | 3rdparty/libev-4.19/ev.c:3762-3788 | the watcher becomes active at whatever time its callback gives, at its next step, or at its offset |
| Periodics.PeriodicLoop.PeriodicStop | 3rdparty/libev-4.19/ev.c:3792-3817 | the watcher is neither active nor pending |
| Periodics.PeriodicLoop.PeriodicsReify | 3rdparty/libev-4.19/ev.c:3185-3246 | terminates, feeds exactly the due watchers, each once, and leaves none due; a watcher with a reschedule callback gets the callback's answer, which the source asserts is not in the past, one with an interval its next step, and others stop |
| Periodics.PeriodicLoop.RunDue | 3rdparty/libev-4.19/ev.c:3185-3246 | the same for the due periodics |
| FdBackends.PollTable.Modify | 3rdparty/libev-4.19/ev_poll.c:51-86 | the two tables stay inverse to each other, without gaps and without empty masks, and exactly the mask of the descriptor changes |
| FdBackends.PollTable.Remove | 3rdparty/libev-4.19/ev_poll.c:76-85 | the last element takes the place of the removed one |
| FdBackends.AssignHas | 3rdparty/libev-4.19/ev_select.c:127-134 | the two assignments to a bit vector change exactly the bit of the descriptor |
| FdBackends.TestSet | 3rdparty/libev-4.19/ev_select.c:127-134 | setting a bit of a word changes that bit only |
| FdBackends.TestClear | 3rdparty/libev-4.19/ev_select.c:127-134 | clearing a bit of a word changes that bit only |
| FdBackends.SelectTable.Modify | 3rdparty/libev-4.19/ev_select.c:67-136 | the bit vectors grow with zeros, and exactly the mask of the descriptor changes |
| FdBackends.SelectTable.Scan | 3rdparty/libev-4.19/ev_select.c:246-268 | the scan over words and bits reports the ready descriptors, skipping empty words |
| FdBackends.ReadyIsComplete | 3rdparty/libev-4.19/ev_select.c:246-268 | every descriptor with an event is reported once, with exactly its events, the highest first |
| FdLoop.WantedMembers | 3rdparty/libev-4.19/ev.c:1910-1911 | the union over a list has a bit exactly if some watcher of the list wants it |
| FdLoop.Delete | 3rdparty/libev-4.19/ev.c:3560-3572 | the watcher is cut out of its list, and the others stay in their order |
| FdLoop.Loop.FdChange | 3rdparty/libev-4.19/ev.c:1926-1937 | the descriptor is marked, and is on the change list exactly once |
| FdLoop.Loop.IoStart | 3rdparty/libev-4.19/ev.c:3629-3651 | the watcher is listed once and its descriptor marked; no registration changes yet |
| FdLoop.Loop.IoStop | 3rdparty/libev-4.19/ev.c:3655-3671 | the watcher is not pending any more and off its list, and its descriptor marked; no registration changes yet |
| FdLoop.Loop.ReifyOne | 3rdparty/libev-4.19/ev.c:1895-1919 | one descriptor of the change list is brought up to date with its watchers, in the backend too |
| FdLoop.Loop.FdReify | 3rdparty/libev-4.19/ev.c:1866-1921 | afterwards the backend gives every descriptor exactly the events that some active watcher of it wants |
| FdLoop.Loop.BackendIsExact | 3rdparty/libev-4.19/ev.c:2930-2960 | with an empty change list the backend table is the map from descriptors to wanted events |
| FdLoop.Loop.FdEvent | 3rdparty/libev-4.19/ev.c:1830-1854 | the watchers of a reported descriptor are fed in the order of its list; nothing is fed for a descriptor whose registration is out of date |
| FdDelivery.EachIsTold | 3rdparty/libev-4.19/ev.c:1830-1843 | every watcher of the list is told exactly those of the reported events that it wants, added to what was pending |
| FdDelivery.OthersKeepWant | 3rdparty/libev-4.19/ev.c:1830-1843 | no other watcher is told anything |
| FdDelivery.NothingIsLost | 3rdparty/libev-4.19/ev.c:1830-1921 | whatever the backend may report for an unmarked descriptor is told to some active watcher that wants it |
| Base64.TextLength | hm-libs/hmrtspparser/src/base64.c:251-273 | a text has four characters for every three bytes begun |
| Base64.DigitIsAlphabet | hm-libs/hmrtspparser/src/base64.c:56-57 | the digits are the alphabet of RFC 4648 in its order |
| GBase64.Encoder.Step | hm-libs/hmrtspparser/src/base64.c:90-180 | for every saved state: the text of the complete quanta, the line position, the bytes that wait, and which stale byte the second slot keeps |
| GBase64.Encoder.Loop | hm-libs/hmrtspparser/src/base64.c:112-155 | entered behind the saved bytes, the loop encodes exactly the complete quanta |
| GBase64.Encoder.Close | hm-libs/hmrtspparser/src/base64.c:197-238 | the text is that of the waiting bytes, exactly unless one byte waits and the second slot holds 16 or more |
| GBase64.QuantaSplit | hm-libs/hmrtspparser/src/base64.c:90-180 | encoding in two parts is encoding the whole, with the left-over bytes and the line position carried over |
| GBase64.EncodeChunks | hm-libs/hmrtspparser/src/base64.c:90-238 | the text of any chunks is that of one call, exactly unless a single byte is left at the end and the last pair left at a boundary ended in 16 or more |
| GBase64.ChunkingMatters | hm-libs/hmrtspparser/src/base64.c:211-230 | two chunks of two bytes for which the text differs |
| GBase64.Encode | hm-libs/hmrtspparser/src/base64.c:251-273 | is the text of section 4 of RFC 4648, and fits the allocated buffer |
| GBase64.EncodedIsText | hm-libs/hmrtspparser/src/base64.c:251-273 | the encoder without line breaks gives the text of section 4 of RFC 4648 |
| GBase64.LinesHave76 | hm-libs/hmrtspparser/src/base64.c:147-152 | the line breaks stand after every 76 characters |
| GBase64.Decoder.Step | hm-libs/hmrtspparser/src/base64.c:316-371 | appends the bytes of the quanta that are completed, also when the output overwrites the input, and touches nothing behind them |
| GBase64.Decoder.Loop | hm-libs/hmrtspparser/src/base64.c:341-366 | the write position never passes the read position, and the output is at most three bytes for four characters |
| GBase64.Decode | hm-libs/hmrtspparser/src/base64.c:388-408 | returns the decoded alphabet characters of the text |
| GBase64.DecodeInPlace | hm-libs/hmrtspparser/src/base64.c:424-440 | gives the same bytes as decoding to another buffer; refuses a text of at most one character |
| GBase64.RoundTrip | hm-libs/hmrtspparser/src/base64.c:251-408 | decoding undoes encoding for all bytes, with and without line breaks |
| GBase64.QuantumRoundTrip | hm-libs/hmrtspparser/src/base64.c:341-366 | decoding a quantum of one to three bytes gives them back |
| GBase64.DecodeChunks | hm-libs/hmrtspparser/src/base64.c:316-371 | what the calls write for any chunks of a text |
| GBase64.ChunkedDecoding | hm-libs/hmrtspparser/src/base64.c:316-371 | decoding in chunks is faithful exactly if no boundary lies behind a padding character in the third place of a quantum that goes on; each such boundary adds one byte |
| GBase64.DecodingMatters | hm-libs/hmrtspparser/src/base64.c:341-366 | two chunks for which one byte too many is written |
| HmBase64.TextFits | hm-libs/hmlib/src/hm_base64.c:122 | text and zero fit the allocated size exactly if the 32-bit product does not wrap |
| HmBase64.TooLittle | hm-libs/hmlib/src/hm_base64.c:122 | at 2^30 bytes four bytes are allocated for a text of more than 1.4 thousand million |
| HmBase64.Encode | hm-libs/hmlib/src/hm_base64.c:109-172 | writes the text of section 4 of RFC 4648 and a zero into the allocated buffer |
| HmBase64.DecodeQuantum | hm-libs/hmlib/src/hm_base64.c:25-49 | the bytes of four characters, where others than those of the alphabet are passed over |
| HmBase64.Decode | hm-libs/hmlib/src/hm_base64.c:51-105 | which texts are refused, and the bytes, length and zero for the others |
| HmBase64.RoundTrip | hm-libs/hmlib/src/hm_base64.c:51-172 | decoding undoes encoding of at least one byte |
| Utf8.EncodeThenGetc | hm-libs/mxml/mxml-file.c:484-556 | a character that is added to a buffer is read back |
| Utf8.EncodeTable | hm-libs/mxml/mxml-file.c:484-556 | the bytes are those of the table in section 3 of RFC 3629, extended to 21 bits |
| Utf8.GetcThenEncode | hm-libs/mxml/mxml-file.c:2112-2237 | what is read is the shortest encoding of the character: overlong forms are refused |
| Utf8.GetcIffEncoded | hm-libs/mxml/mxml-file.c:2112-2237 | a read accepts exactly the encodings of the characters below 0x200000 that are no bad control characters |
| Utf8.DecodeEncoded | hm-libs/mxml/mxml-file.c:2103-2330 | reading the encoding of a text gives the text |
| Utf8.EncodeDecoded | hm-libs/mxml/mxml-file.c:2103-2330 | what has been read is encoded as the bytes that were read |
| Utf8.Buffer.AddChar | hm-libs/mxml/mxml-file.c:484-556 | the growing buffer keeps all earlier bytes, appends the character, and keeps room for a zero |
| Utf8.Buffer.MakeRoom | hm-libs/mxml/mxml-file.c:493-516 | after growing there is room for four bytes and a zero |
| Utf8.Buffer.Terminate | hm-libs/mxml/mxml-file.c:1490 | the zero fits behind the characters, and what is before it is the encoding of all that was added |
| Utf8.AddAll | hm-libs/mxml/mxml-file.c:1472-1490 | over any run of additions and a final zero the string is the encoding of the characters, and reads back as them |
| XmlText.WidthIsBytes | hm-libs/mxml/mxml-file.c:2540 | the width that is counted for a name or a text is its number of bytes |
| XmlIo.WriteString | hm-libs/mxml/mxml-file.c:2769-2805 | is the escaped string |
| XmlIo.WriteName | hm-libs/mxml/mxml-file.c:2413-2480 | is the name, or the quoted name escaped up to its end quote |
| XmlIo.WriteNode | hm-libs/mxml/mxml-file.c:2488-2761 | bytes and column of a node and its siblings, against the printer function on bytes |
| XmlIo.SaveString | hm-libs/mxml/mxml-file.c:405-450 | the printed bytes of a node and of the siblings after it, and a newline |
| XmlBytes.EscapeBytes | hm-libs/mxml/mxml-file.c:2769-2805 | escaping byte by byte is escaping character by character |
| XmlBytes.NameBytes | hm-libs/mxml/mxml-file.c:2413-2480 | a name is written byte by byte as it is character by character, up to its end quote |
| XmlBytes.NodeSame | hm-libs/mxml/mxml-file.c:2488-2761 | for every tree, what is written for its UTF-8 strings is the encoding of what is printed for its characters, wrapping and columns included |
| XmlBytes.SavedSame | hm-libs/mxml/mxml-file.c:405-450 | the same for all that is saved |
| XmlIo.GetEntity | hm-libs/mxml/mxml-file.c:1256-1310 | the loop over a reference computes what XmlReferences says of references |
| XmlReferences.NumberOfDigits | hm-libs/mxml/mxml-file.c:1290-1296 | `strtol` undoes printing a number in base 10 or 16 |
| XmlReferences.NumericReference | hm-libs/mxml/mxml-file.c:1290-1296 | a decimal or hexadecimal reference to any number, with leading zeros, prefix and digits of either case, is read as the int of that number, and refused exactly if that is negative or a bad control character, while the name fits |
| XmlReferences.IntOfNumber | hm-libs/mxml/mxml-file.c:1262-1296 | the int is the number itself below 2^31, -1 beyond the range of a long, and congruent to it in between |
| XmlReferences.BadReference | hm-libs/mxml/mxml-file.c:1271-1288 | a name that is too long, or that no semicolon ends, is refused |
| XmlReferences.ReferenceRead | hm-libs/mxml/mxml-file.c:1256-1310 | a character is read from every spelling of it by name or number |
| XmlReferences.UntilWritten | hm-libs/mxml/mxml-file.c:1950-2040 | an attribute name or value is read whatever spelling each of its characters has |
| XmlReferences.QuotedWritten | hm-libs/mxml/mxml-file.c:1925-1950 | an attribute name in quotes is read in every spelling |
| XmlReferences.TagWritten | hm-libs/mxml/mxml-file.c:1472-1490 | the name of a tag is read in every spelling |
| XmlReferences.DeclarationWritten | hm-libs/mxml/mxml-file.c:1640-1656 | the rest of a declaration is read in every spelling |
| XmlReferences.WordWritten | hm-libs/mxml/mxml-file.c:1781-1802 | a word is read in every spelling, and white space that is spelled by references belongs to it |
| XmlReferences.EscapedIsSafe | hm-libs/mxml/mxml-file.c:2769-2805 | escaped text has no angle brackets and no double quotes, and each `&` in it starts one of the four predefined references |
| XmlIo.ReadTag | hm-libs/mxml/mxml-file.c:1472-1490 | the name after a '<' and the character that ends it |
| XmlIo.ParseElement | hm-libs/mxml/mxml-file.c:1841-2095 | the attributes of an element and what ends it, with duplicates and errors |
| XmlIo.ChangeAttr | hm-libs/mxml/mxml-attr.c:87-170 | replaces the value of an attribute, or adds it |
| XmlText.FirstAttr | hm-libs/mxml/mxml-attr.c:40-70 | the first attribute of a name counts, and is replaced in its place |
| XmlText.NewAttr | hm-libs/mxml/mxml-attr.c:87-170 | an attribute with a new name comes last |
| XmlIo.LoadData | hm-libs/mxml/mxml-file.c:1317-1833 | the loop over a text computes the parser function that XmlDocument and the round trip are about |
| XmlIo.ReadAside | hm-libs/mxml/mxml-file.c:1492-1632 | the loops for comments, CDATA sections and processing instructions |
| XmlIo.ReadDeclaration | hm-libs/mxml/mxml-file.c:1634-1692 | the loop for declarations |
| XmlDocument.LaidRead | hm-libs/mxml/mxml-file.c:1841-2095 | an attribute is read in each of its four layouts, and a second value for a name is an error |
| XmlDocument.LaidAllRead | hm-libs/mxml/mxml-file.c:1841-2095 | attributes with different names are read with any white space, any quotes and any spelling |
| XmlDocument.OpenLoads | hm-libs/mxml/mxml-file.c:1732-1780 | an open tag in any layout opens its element |
| XmlDocument.CloseLoads | hm-libs/mxml/mxml-file.c:1697-1731 | a close tag, with anything before its `>`, closes the innermost element exactly if it has its name, and otherwise nothing is loaded |
| XmlDocument.NoteLoads | hm-libs/mxml/mxml-file.c:1492-1584 | a comment or CDATA section is added as an element up to the first mark that may end it |
| XmlDocument.InstructionLoads | hm-libs/mxml/mxml-file.c:1585-1633 | a processing instruction opens an element that nothing closes |
| XmlDocument.DeclarationLoads | hm-libs/mxml/mxml-file.c:1634-1696 | a declaration does the same |
| XmlDocument.DocsLoad | hm-libs/mxml/mxml-file.c:1317-1833 | elements, comments, CDATA sections and words, in any layout and spelling, are loaded as the children of the innermost open element |
| XmlDocument.DocumentLoads | hm-libs/mxml/mxml-file.c:1317-1833 | every document under processing instructions and declarations, in any layout and spelling, is loaded as its tree |
| XmlDocument.ClosedRootIsLost | hm-libs/mxml/mxml-file.c:1697-1833 | for an element without such a root nothing is returned once it is closed |
| XmlDocument.UnfinishedFails | hm-libs/mxml/mxml-file.c:1492-1633 | a comment, CDATA section or instruction without an end makes loading fail |
| XmlDocument.BadReferenceFails | hm-libs/mxml/mxml-file.c:1474-1480 | and so does a bad reference in a word or a tag |
| XmlDocument.StrayMarkEnds | hm-libs/mxml/mxml-file.c:1897-1912 | a stray `/` or `?` ends the loading with the tree so far |
| XmlDocument.SecondValueEnds | hm-libs/mxml/mxml-file.c:1971-1972 | and so does a second value for an attribute |
| XmlRoundTrip.EscapedIsKnown | hm-libs/mxml/mxml-entity.c:88-107 | the printer names exactly the four special characters, by names that the parser knows |
| XmlRoundTrip.AttrsAreLaid | hm-libs/mxml/mxml-file.c:2542-2580 | printed attributes are a layout of the attributes, wherever lines are wrapped |
| XmlRoundTrip.NodesAreWritten | hm-libs/mxml/mxml-file.c:2488-2761 | printed children are a document of the children |
| XmlRoundTrip.RootIsWritten | hm-libs/mxml/mxml-file.c:2488-2761 | a printed root is a document of the root |
| XmlRoundTrip.RoundTrip | hm-libs/mxml/mxml-file.c:1317-1833 | for every tree in normal form, loading the printed text gives the tree; comments, CDATA sections and nested instructions and declarations are included |
| XmlRoundTrip.BytesRoundTrip | hm-libs/mxml/mxml-file.c:229-250 | the bytes that are printed for the UTF-8 strings of such a tree, decoded and loaded, give the tree |
| XmlLayout.NodesColumn | hm-libs/mxml/mxml-file.c:2488-2761 | for strings without line breaks and escapes, and no `?xml`, the column is the length of the last line |
| XmlLayout.AttrBreaks | hm-libs/mxml/mxml-file.c:2546-2564 | an attribute goes on a new line exactly if it would end behind the margin |
| XmlLayout.WordBreaks | hm-libs/mxml/mxml-file.c:2705-2719 | a word goes on a new line exactly if the line before it has crossed the margin |
| XmlTree.Remove | hm-libs/mxml/mxml-node.c:550-606 | removes exactly the node from the children of its parent; all sibling, parent and end pointers of the tree stay consistent |
| XmlTree.WithoutIs | hm-libs/mxml/mxml-node.c:550-606 | taking a child out leaves the others in their order |
| XmlTree.Add | hm-libs/mxml/mxml-node.c:59-182 | takes the node out of its old place; it then stands first or last among the children if no child of the parent is named, and otherwise directly before or behind the named child, and the others keep their order; all pointers stay consistent and no cycle arises |
| XmlTree.Delete | hm-libs/mxml/mxml-node.c:193-270 | frees exactly the tree at the node, each node once and after what is below it; all other nodes stay linked as they were, without the node |
| XmlTree.PostorderPermutes | hm-libs/mxml/mxml-node.c:213-220 | the order in which a tree is freed has the nodes of the tree, each once |
| XmlTree.PostorderChildrenFirst | hm-libs/mxml/mxml-node.c:213-220 | in that order a node comes behind all of its children |
| XmlTree.Insert | hm-libs/mxml/mxml-node.c:96-165 | the node stands first or last, or directly before or behind the named child, and the other children keep their order |
| XmlTree.Raise | hm-libs/mxml/mxml-node.c:59-182 | an added tree is never above its new parent |
| XmlWalk.Pos | hm-libs/mxml/mxml-search.c:130-157 | every node of a tree has an index in document order, where its own tree starts |
| XmlWalk.PreorderDistinct | hm-libs/mxml/mxml-search.c:130-157 | document order lists every node once |
| XmlWalk.BelowComesLater | hm-libs/mxml/mxml-search.c:130-157 | in document order a node stands before all nodes below it |
| XmlWalk.EarlierComesFirst | hm-libs/mxml/mxml-search.c:130-157 | and what is below an earlier child before what is below a later one |
| XmlWalk.WalkNext | hm-libs/mxml/mxml-search.c:130-157 | returns the next node in document order, or the next that is not below: in the tree at `top` from a node below it, and in the whole tree from elsewhere |
| XmlWalk.WalkPrev | hm-libs/mxml/mxml-search.c:166-194 | returns the node before in document order, or NULL at the first one below `top` or at a root; without descending, the sibling before or the parent |
| XmlWalk.NextThenPrev | hm-libs/mxml/mxml-search.c:130-194 | WalkPrev undoes WalkNext between strict descendants, and when the walk ends |
| XmlWalk.Walk | hm-libs/mxml/mxml-search.c:130-157 | iterating visits every node that follows `top` where the walk stays, exactly once, in document order, and stops |
| XmlWalk.WalkStaysBelow | hm-libs/mxml/mxml-search.c:130-157 | the walk visits exactly the strict descendants of `top` if and only if `top` has a child, is a root, or is the last node of its tree |
| XmlWalk.WalkLeaves | hm-libs/mxml/mxml-search.c:130-157 | from the first of two childless children the walk visits the second |
| XmlWalk.FindElement | hm-libs/mxml/mxml-search.c:48-118 | in all three modes returns the first match among the nodes it looks at: all later ones of the walk, or the node of one step and its later siblings |
| XmlIndex.StrCmpOrder | hm-libs/mxml/mxml-index.c:502-503 | the comparison of strings is a total order |
| XmlIndex.StrCmpIsBefore | hm-libs/mxml/mxml-index.c:502-503 | a string is less than another one if and only if it is a proper prefix of it, or is less at the first place where they differ |
| XmlIndex.CompareIsKeyBefore | hm-libs/mxml/mxml-index.c:491-522 | a node is less than another one exactly if its name is, or its attribute value where the names agree |
| XmlIndex.SortedInKeyOrder | hm-libs/mxml/mxml-index.c:573-644 | in a sorted index no node is less than an earlier one |
| XmlIndex.FindDiffIsWanted | hm-libs/mxml/mxml-index.c:530-563 | the comparison with a search is zero exactly for the nodes that the search wants |
| XmlIndex.ScannedIsFilter | hm-libs/mxml/mxml-index.c:247-284 | a scan finds the wanted nodes of the index, in its order |
| XmlIndex.CompareOrder | hm-libs/mxml/mxml-index.c:491-522 | the comparison of nodes by name and attribute is a total preorder |
| XmlIndex.Partition | hm-libs/mxml/mxml-index.c:590-634 | splits the range around the pivot, which is placed at the end, and permutes it |
| XmlIndex.IndexSort | hm-libs/mxml/mxml-index.c:573-644 | terminates, sorts the range by a permutation, and leaves the rest of the array unchanged |
| XmlIndex.Advance | hm-libs/mxml/mxml-index.c:583-644 | one round of the loop on the right with the recursion on the left extends the sorted part |
| XmlIndex.BisectedIsFirst | hm-libs/mxml/mxml-index.c:183-245 | with monotone comparisons the bisection ends at the first match |
| XmlIndex.ElementSearch | hm-libs/mxml/mxml-index.c:115-284 | searches by element, with or without a value, agree with a scan of the sorted index |
| XmlIndex.OneNameSorts | hm-libs/mxml/mxml-index.c:530-563 | if all nodes have one name the index is sorted by value |
| XmlIndex.ValueSearchExact | hm-libs/mxml/mxml-index.c:530-563 | searches by value only agree with a scan, for all values, exactly if the values are sorted along the index or it has at most two nodes |
| XmlIndex.ValueSearchFails | hm-libs/mxml/mxml-index.c:530-563 | three nodes for which a search by value only misses a match |
| XmlIndex.WrongOrder | hm-libs/mxml/mxml-index.c:183-245 | of two neighbours in the wrong order, one is not found |
| XmlIndex.Index.Reset | hm-libs/mxml/mxml-index.c:456-483 | the position is the start, and the first node is returned |
| XmlIndex.Index.Enum | hm-libs/mxml/mxml-index.c:85-101 | returns the nodes in index order, then NULL for ever |
| XmlIndex.Index.Find | hm-libs/mxml/mxml-index.c:115-284 | the result and the new position for every kind of search and every position |
| XmlIndex.Index.FindFirst | hm-libs/mxml/mxml-index.c:175-246 | the loop of the bisection ends where its function does |
| XmlIndex.Index.FindAll | hm-libs/mxml/mxml-index.c:115-284 | repeated finds after a reset return one run of matches, then NULL |
| XmlIndex.Lookup | hm-libs/mxml/mxml-index.c:115-284 | under the exact condition repeated finds return all nodes of the index that the search wants, in its order |
| XmlIndex.Collect | hm-libs/mxml/mxml-index.c:333-372 | collects the matching nodes in document order |
| XmlIndex.New | hm-libs/mxml/mxml-index.c:298-444 | the index is a permutation of the matching nodes behind `node` where the walk stays, and of `node` itself without name and attribute, in which no node is less than an earlier one |
| Gev.PushedKeeps | hm-libs/hmgev/src/gev.c:536-561 | queuing an operation keeps the invariant |
| Gev.ExecutedKeeps | hm-libs/hmgev/src/gev.c:672-687 | running an operation keeps the invariant |
| Gev.QueueModifyKeeps | hm-libs/hmgev/src/gev.c:617-668 | the second part of a change of the mask keeps the invariant |
| Gev.ReturnKeeps | hm-libs/hmgev/src/gev.c:118-165 | the end of a callback keeps the invariant, whatever it returns |
| Gev.StepKeepsInv | hm-libs/hmgev/src/gev.c:52-701 | every step of every thread keeps the invariant |
| Gev.ReachableInv | hm-libs/hmgev/src/gev.c:52-701 | the invariant holds in every reachable state |
| Gev.OthersOnlyQueue | hm-libs/hmgev/src/gev.c:536-636 | steps of other threads do not disturb a drain, and only add to the queue |
| Gev.NextOperationRuns | hm-libs/hmgev/src/gev.c:80-105 | a waiting operation can be run by the next steps of the loop thread: the pipe has a byte, or a drain goes on |
| Gev.WaitingHaveRun | hm-libs/hmgev/src/gev.c:672-701 | in every run, whatever other threads do in between, the first k waiting operations have run, in order, after 2k steps that drain the queue |
| Gev.OperationsInOrder | hm-libs/hmgev/src/gev.c:672-687 | operations run in the order in which they were queued, each once |
| Gev.NoUseAfterFree | hm-libs/hmgev/src/gev.c:192-211 | no step touches an event whose last reference is gone |
| Gev.FreedExactly | hm-libs/hmgev/src/gev.c:192-211 | an event is freed exactly when no caller, list, queued or running operation holds it, and then it is not watched |
| Gev.NoDispatchAfterRemoval | hm-libs/hmgev/src/gev.c:118-165 | once removed from the list an event is never dispatched again |
| Gev.RemovalRemoves | hm-libs/hmgev/src/gev.c:147-165 | a callback that returns FALSE, or a remove operation, leaves the event without active or pending watchers |
| Gev.ListedIsWatched | hm-libs/hmgev/src/gev.c:424-443 | only listed events have active or pending watchers; before quit a listed event is watched with its mask unless a modification is on its way |
| Gev.RemoveTakesEffect | hm-libs/hmgev/src/gev.c:574-593 | after `g_event_remove` of an attached event before quit, every run with enough steps of the loop thread has the event off the list and quiet, for good |
| Gev.AttachTakesEffect | hm-libs/hmgev/src/gev.c:536-561 | after `g_event_loop_attach` of a new event before quit, every such run has it on the list, if nothing removes it, with its timer active exactly if it has a timeout |
| Gev.ModifyTakesEffect | hm-libs/hmgev/src/gev.c:617-668 | after a change of the mask of an attached event, every such run watches for the new mask, if the event is on the list and nobody changes the mask again |
| Gev.SyncTakesEffect | hm-libs/hmgev/src/gev.c:447-468 | a change of the mask in a callback takes effect at once |
| Gev.CallersDecide | hm-libs/hmgev/src/gev.c:192-247 | over every run the references of callers, the timeout, the mask and the attachment of an event are what the calls have made them |
| Gev.QuitEndsQueuing | hm-libs/hmgev/src/gev.c:596-613 | after quit nothing is queued any more |
| Gev.DispatchedAnew | hm-libs/hmgev/src/gev.c:118-165 | after a dispatch, or what drops a pending input or timeout, only what arrives anew is dispatched |

## Left out

- Wakeup: memory accesses interleave sequentially consistently; the fences of the source, weak memory orders and the start, stop and destruction of async watchers during the protocol are not modelled. Signals and asyncs are numbered and stay attached.
- Dispatch.Queues.InvokePending: the callbacks follow a finite script of feeds, clears, recursive invocations and stops, so that the drain ends; callbacks that feed for ever are not modelled.
- Dispatch.FedBackwardsCalledForwards: assumes that none of the watchers was pending before and that no callback feeds, as the order rests on it; clears and recursive invocations are allowed.
- Timers.TimerLoop.RunDue: of a callback that stops a timer only the clearing of its event is part of the script; what stopping does to the heap is TimerStop. The same holds for Periodics.PeriodicLoop.RunDue.
- TimerHeap.MinChild: the fourth test of the slow path in the source can never succeed, because four children take the fast path; the model leaves it out.
- Periodics.EvFloor: exact real arithmetic; rounding, and the branches for numbers that are their own successor, are not modelled.
- Periodics.PeriodicLoop.PeriodicsReify: the adjustment of periodics after a time jump (`periodics_reschedule`) is not modelled.
- FdLoop.Loop.FdReify: the Windows branches, `fd_kill` and the rebuilding of descriptors after errors are not modelled; the kernel part of poll and select is a parameter.
- FdBackends.SelectTable.Modify: the branch that uses the bit vectors of libev itself, with words of 64 bits; the system's own fd_set is not modelled.
- NetBuffer.NetBuf.Write: the lock of the buffer, freeing it, and the wrap-around of counters are not modelled.
- GBase64.Encoder.Close: GLib's later fix of the stale byte is not in this code; the condition is stated as the code has it. The comment of the encoder speaks of 72 columns where the code breaks after 76.
- HmBase64.Encode: inputs of 2^30 bytes and more, for which the computed size wraps and the source writes behind its buffer, are covered by TextFits and TooLittle only.
- HmBase64.Decode: lengths are unbounded; in the source the number of bytes overflows an int for texts of 2863311532 characters or more.
- Utf8.GetcIffEncoded: UTF-16 input, to which a byte order mark switches, is not modelled.
- XmlText: white space and letters are those of the C locale; integer, real, opaque and custom nodes, type callbacks and white-space callbacks are not modelled.
- XmlText.Char8: the first character of a name or a value without quotes is stored as a char; for a character beyond ASCII the number stands for that single byte.
- XmlIo.GetEntity: the table of entity names is a parameter; a long has 64 bits and an int 32, and the conversion keeps the low bits.
- XmlIo.WriteNode: only element and text nodes; bytes from 0x80 up are written as they are, as with a signed char; the limited buffer of mxmlSaveString and write errors are not modelled.
- XmlIo.LoadData: frames with children stand for the nodes under construction; their pointers are the subject of XmlTree. At a close tag without an open element the model returns nothing, where the error message of the source reads through a NULL parent. A malformed byte is the end of the text for good, where the source calls the reader again in some places (around hm-libs/mxml/mxml-file.c:1720 and 1914) and then reads on behind the bad byte.
- XmlRoundTrip.RoundTrip: the root is a processing instruction or a declaration, because a parser without a top node returns nothing once its root is closed (`XmlDocument.ClosedRootIsLost`). It is stated on characters; that each string can be read from UTF-8 is asked for in BytesRoundTrip.
- XmlTree.Delete: the memory of names, attributes and values is not modelled.
- XmlTree.Add: a node that is added beside itself, or below itself, breaks the tree in the source as well, and is excluded.
- XmlIndex.New: a text node may only be given with a name or an attribute, because the sort reads the names of all nodes of the index; allocation in steps of 64 is not modelled.
- XmlIndex.StrCmp: compares character by character where strcmp compares bytes; for UTF-8 the two orders agree.
- Gev.DispatchedAnew: timers have no times in this model; when a timeout arrives is free.
- Gev.Next: `g_event_loop_quit` creates its operation but never queues it, so nothing is claimed about the end of the loop. Changes of one event's mask by several threads are taken as atomic, which the source leaves to its callers. The functions whose names end in `_sync` may only be invoked in the callback of the event itself (hm-libs/hmgev/include/gev.h:76-84), where the event is listed; the model allows them in any callback, for listed events.
- Allocation failure, logging and debug output are not modelled anywhere.
- System calls, epoll, kqueue and ports, sockets, child and stat watchers, and `hm_event.c`, which nearly copies `gev.c`.
- The containers of hmlib, the network, RTSP, scheduler and mb_* layers: not part of this model.
