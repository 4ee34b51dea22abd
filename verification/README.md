# A model of the client/server GL proxy

The program runs GL calls of an application on a separate server thread. A client thread writes
commands into a ring of bytes that is mapped twice in a row, and the server thread takes them out and
calls the driver. The client invents object names without waiting, keeps a cache of GL state so that it
can drop calls that change nothing, and copies vertex data, indices and images into the commands it
queues.

The model has these parts.

- `wrappers.dfy`, `sequences.dfy`, `gl_types.dfy`: what several parts share.
- `bytes.dfy`: bytes, little-endian integers, positions of the twice-mapped ring. The mirror is indexing
  modulo the ring's length.
- `command_queue.dfy`: the queue as a state machine with a program counter for each thread, one access
  to shared memory a step. A run is any sequence of enabled steps, so every interleaving is a run.
  `queue_safety.dfy`, `queue_bytes.dfy`, `queue_sync.dfy`, `queue_progress.dfy` prove what every run
  keeps. `token_slots.dfy` says exactly when a client can disturb a token and what it can check to avoid
  it; `queue_limits.dfy` and `token_wrap.dfy` have the two runs that break the promise of synchronous
  calls. `client_program.dfy` is what the client lays out and commits, taken by itself: in every run that
  performs a program, the commands the program builds are the ones that join the queue.
  `program_runs.dfy` proves that there are such runs.
- `ring_buffer.dfy`: the ring as a class over an array.
- `enabled_attribs.dfy`, `chunk_coverage.dfy`: the list of enabled vertex attributes, the chunks it
  gives, and whether the copy of a chunk holds all that is read. `draw_packing.dfy`: the layout of a draw
  in the ring, as the client's methods produce it. `draw_program.dfy`, `draw_lifetime.dfy`: the same draw
  as a program in the state machine, interleaved with the server, and how long its bytes stay what they
  were. `draw_fields.dfy`: what the handlers find in the commands. `draw_calls.dfy`: glDrawArrays and
  glDrawElements, and for how many vertices they copy. `draw_runs.dfy`: every draw that fits is performed in some run. `draw_limits.dfy`: draws longer
  than the ring, and where they are stored.
- `link_list.dfy`, `hash_table.dfy`, `name_handler.dfy`: the containers and the name allocator.
  `name_translation.dfy` has the client's Gen, Delete and Bind and the server's handlers on top of
  them; `naming_end_to_end.dfy` is the whole way of a name from the application to the driver, and
  `naming_runs.dfy` how that goes wrong for a buffer bound to both targets.
- `state_cache.dfy`: dropping of redundant state calls. `state_meaning.dfy`: what such calls set, one and
  many. `image_copy.dfy`: image sizes in 32 bits and the
  row copy. `index_maximum.dfy`: the largest index, scalar and by vector lanes.

Objects that the program updates in place are classes here, with methods proved against functions on
values; what is claimed about whole histories is proved about those functions. The two threads together
are a state machine on values. `QueueSafety.QuietRing` says how the machine's state and the ring class
belong together. `DrawPacking.PackDraw` commits the list of commands that `DrawProgram.DrawCommands`
names, and `ClientProgram.CommitsFollow` proves of every interleaving that just these join the queue.

Where a promise does not hold of the code, the code is modelled as it is, and there is a lemma with the
exact condition, or a run that fails:

- A synchronous call may return early if the client overwrites a slot that was just released before the
  server has read its token (`QueueLimits.TokenRaceReturnsEarly`). That can happen in a state if and only
  if the space the client holds reaches the four bytes (`TokenSlots.TokenRaceExactly`); a client that
  never takes space reaching the token of the slot released last is safe
  (`TokenSlots.SparingGrantsAreEnough`).
- It also returns early after 2^32 - 1 synchronous calls, a state that is reached
  (`TokenWrap.WrapReturnsEarly`). The queue's claims about tokens take both as hypotheses on the run:
  `QueueSync.OrderlyRun`.
- An attribute put in front of the head drops the rest of the list (`EnabledAttribs.AddKeepsAll`), and
  removing an attribute that is not in the list lowers the count (`EnabledAttribs.CallKeeps`).
- An attribute disabled while a buffer is bound stays in the list; enabling it again without one inserts
  it a second time. Then the list has no end, unless the attribute goes in front of the head
  (`EnabledAttribs.AgainEnds`, `EnabledAttribs.OwnSuccessor`), and a draw would follow it for ever
  (`EnabledAttribs.EnabledList.Met`). Changing the pointer of such an attribute keeps the order exactly
  between its neighbours' pointers (`EnabledAttribs.CallKeeps`).
- A chunk is copied long enough if and only if no attribute is read further than the last one's stride
  reaches (`ChunkCoverage.CoveredExactly`); two attributes with different strides fail it
  (`ChunkCoverage.MixedStridesNotCovered`).
- A draw longer than the ring may be granted bit by bit. Wherever `head` stands it is stored within the
  double mapping if and only if it is longer by one byte at most (`DrawLimits.GrantedStaysInMapping`), and
  on the ring of one megabyte there are draws that are not (`DrawLimits.GrantedBeyondMapping`).
- Claiming the largest name handed out so far, or one more than one above it, leaves names that belong
  to nobody (`NameHandler.ClaimKeeps`).
- Deleting a buffer that is bound to both targets resets one cached binding only; when its name comes
  back, binding it is dropped as redundant (`NamingEndToEnd.StepBindings`,
  `NamingEndToEnd.StaleElementBinding`). Every run with a live buffer can come to that
  (`NamingRuns.StaleReached`).
- With skipped pixels every row but the first is read from the wrong place (`ImageCopy.CopyIsWanted`).
- The cached stencil masks do not start as the driver's do. The driver is always where it should be if and
  only if no call is dropped that sets a mask which still differs (`StateCache.ElisionExactly`,
  `StateCache.FirstMaskLost`). The header's comment gives the intended value, 0xffffffff; the code fills
  every byte with 1, and the code is followed.

## Model

| member | source | states |
|---|---|---|
| Bytes.CellOfCell | src/ring_buffer.c:65-83 | the mirror: an offset added to a reduced cursor reaches the byte of the unreduced position, so a command may run past the end of the ring |
| Bytes.CellsDiffer | src/ring_buffer.c:65-83 | two positions less than a ring's length apart never share a byte |
| RingBuffer.Ring.constructor | src/ring_buffer.c:56-59 | the ring is empty, a whole number of pages, at least the size asked for and half a megabyte, and less than a page longer than needed |
| RingBuffer.Ring.NumEntries | src/ring_buffer.c:100-104 | the counter is the number of queued bytes |
| RingBuffer.Ring.WriteAddress | src/ring_buffer.c:112-120 | reports exactly the free bytes, and no address if and only if there are none |
| RingBuffer.Ring.WriteAdvance | src/ring_buffer.c:122-128 | the bytes laid out behind `head` join the end of the queue, nothing queued changes |
| RingBuffer.Ring.ReadAddress | src/ring_buffer.c:130-138 | the address and length given show the whole queue, oldest byte first, also across the ring's end |
| RingBuffer.Ring.ReadAdvance | src/ring_buffer.c:140-146 | exactly the oldest bytes leave the queue |
| RingBuffer.Ring.Clear | src/ring_buffer.c:148-152 | nothing is queued afterwards |
| RingBuffer.Ring.Store | src/client/caching_client.c:1623-1624 | a copy into the free space, across the ring's end or not, changes those bytes and nothing that is queued |
| QueueSafety.StepKeeps | src/client/client.c:272-282 | the inductive invariant of the queue (cursors, framing of the stream, bytes still in place, place of each thread) survives every step of either thread |
| QueueSafety.RunKeeps | src/server/server.c:15-48 | every state of every run has that invariant, under every interleaving |
| QueueSafety.RingSafety | src/ring_buffer.c:112-146 | in every reachable state `head` and bytes not yet discounted, and `tail`, `fill_count` and bytes not yet counted, meet modulo the length, and `fill_count` stays within the ring, although each advance is two steps |
| QueueSafety.RegionsDisjoint | src/client/client.c:219-237 | no byte of the region handed to the client holds a byte the server has not released, whatever the server does meanwhile |
| QueueSafety.FifoRefinement | src/server/server.c:15-48 | the handled commands are always a prefix of the committed ones; each handler call takes the next one, once, with the bytes it was committed with |
| QueueSafety.TailOnHeader | src/server/server.c:19-41 | whenever the server has a command, `tail` is on its header and its size and token read as committed |
| QueueSafety.WholeCommand | src/ring_buffer.c:65-83 | a waiting command reads through the mirror exactly as committed, also when it wraps |
| QueueSafety.QuietRing | src/ring_buffer.c:112-146 | between advances the state is a valid ring whose contents are the committed bytes not yet released |
| QueueSync.SyncCallReturnsAfterHandling | src/client/client.c:254-270 | in a run that meets the two hypotheses, a synchronous call returns only after every committed command, its own the last, was handled and released, and the caller then reads the handler's reply in the slot; leftover posts never end the wait early |
| QueueSync.TokensMonotone | src/client/client.c:254-270 | in such a run `last_token` never decreases and never exceeds the newest token issued |
| QueueSync.StoreTokenSyncs | src/server/server.c:43-46 | in every state with the token invariant, the token the server acknowledges is the newest one, and larger than the last acknowledged |
| QueueLimits.TokenRaceReturnsEarly | src/server/server.c:41-45 | a run on the ring of one megabyte in which a synchronous call returns unhandled, because its header is written over the slot just released and is read as the old command's |
| TokenSlots.TokenRaceExactly | src/server/server.c:41-45 | when the server is about to read a token, some store of the client makes it acknowledge a wrong one if and only if the space the client holds, counted from `head`, reaches one of the four bytes |
| TokenSlots.SparingGrantsAreEnough | src/client/client.c:218-237 | a run in which no newly given space reaches the token of the slot released last, as `fill_count` shows it at that moment, meets the first hypothesis at every step, whatever the server does meanwhile |
| TokenSlots.SparingInNumbers | src/client/client.c:218-237 | as long as `head` has not come to the token itself, that space reaches it if and only if it comes nearer to the end of the free space than the size of that slot less 16 |
| TokenWrap.TokensIssued | src/client/client.c:258-262 | tokens count up by one on 32 bits, are never zero, and begin at one again |
| TokenWrap.ManyCalls | src/client/client.c:254-270 | every value of the 32-bit counter is reached by that many calls, each handled and acknowledged before the next |
| TokenWrap.OvertakenCallReturnsEarly | src/client/client.c:258-270 | from any state whose last acknowledged token is not below the next one, the client returns from its call within six steps of its own while the server takes none |
| TokenWrap.WrapReturnsEarly | src/client/client.c:258-267 | a run from start-up in which the counter passes its largest value and the next synchronous call returns unhandled |
| QueueProgress.NoLostWakeup | src/client/client.c:277-281 | if the server sleeps with no post pending and bytes are queued, the client is about to find `fill_count == size` true and post |
| QueueProgress.PostsConserved | src/client/client.c:254-282 | in every run, of either semaphore, the posts made are the posts taken and those still there |
| QueueProgress.NeverBothStuck | src/server/server.c:31-35 | no state of a run that meets the two hypotheses has both threads blocked; a client that polls for space then has it |
| QueueProgress.ServerAloneFreesClient | src/server/server.c:15-48 | from every state with the token invariant, so from every state of an orderly run, the server, left alone and its handlers storing nothing, comes to rest after finitely many steps, and by then the waiting client can go on |
| QueueProgress.CallReturns | src/client/client.c:254-282 | in every run, from any state inside a call, synchronous or not: once more than a number of steps given by that state have been taken, of either thread and in any order, stores of handlers not counted, the client has returned from the call |
| QueueProgress.CallGoesOn | src/client/client.c:254-282 | in a run that meets the two hypotheses, until then some such step can be taken |
| QueueProgress.WaitEnds | src/client/client.c:218-237 | in such a run, while the client polls for space the server takes a bounded number of steps that are no stores, and when it can take no more the poll succeeds |
| EnabledAttribs.OverlapMeans | src/client/caching_client.c:266-282 | two attributes overlap if and only if some address lies in both, from the pointer to one stride behind it, ends included |
| EnabledAttribs.ChunkJoined | src/client/caching_client.c:299-318 | a new attribute joins the chunk of the first attribute with which it shares an address, and of that chunk those at it or behind it; if it shares none with any, its chunk is its own; pointers, strides and order of the others stay |
| EnabledAttribs.ChunksOfOthers | src/client/caching_client.c:314-316 | two others are in one chunk afterwards if and only if they were before and not on either side of where the new one first shares an address |
| EnabledAttribs.AddKeepsSorted | src/client/caching_client.c:284-328 | after any insertion chunk numbers never rise along the list and pointers never fall inside a chunk |
| EnabledAttribs.MoveKeepsSorted | src/client/caching_client.c:236-264 | so too after any removal, and after a removal followed by an insertion |
| EnabledAttribs.AddKeepsAll | src/client/caching_client.c:320-327 | no element is lost if and only if the new one does not go in front of the head; else all others are |
| EnabledAttribs.CallKeeps | src/client/caching_client.c:236-328 | the list ends and `enabled_count` is its length if and only if nothing goes in front of the head, no member is inserted again and nothing absent is removed; the order survives every call but a change in place, and that if and only if it stays between the neighbours |
| EnabledAttribs.MemberPlace | src/client/caching_client.c:297-318 | the walk for an attribute that is in the list already stops at it or before it |
| EnabledAttribs.AgainEnds | src/client/caching_client.c:1436-1446 | after a member is inserted again the list still ends if and only if it overlaps the head and does not lie above it |
| EnabledAttribs.OwnSuccessor | src/client/caching_client.c:1436-1446 | two attributes apart in memory, inserted one after the other: enabling the second again links it to itself |
| EnabledAttribs.HistoryKeeps | src/client/caching_client.c:236-328 | all of it holds after any history of such calls |
| EnabledAttribs.EnabledList.Add | src/client/caching_client.c:284-328 | the walk in memory, with its renumbering on the way, builds exactly the list of the value-level insertion; for a member not put in front of the head it builds a list whose last attribute leads back to the place of insertion |
| EnabledAttribs.EnabledList.Met | src/client/caching_client.c:1602-1609 | following `next_enabled` along such a list never meets its end |
| EnabledAttribs.EnabledList.SetPointer | src/client/caching_client.c:4004-4019 | an enabled attribute is taken out and inserted anew under its new pointer, so the list has an end; another one is changed where it is |
| EnabledAttribs.EnabledList.Remove | src/client/caching_client.c:236-264 | exactly the given attribute is unlinked, and the count goes down whether or not it was there |
| DrawPacking.GetSpace | src/client/client.c:218-237 | refused exactly for more than the ring holds, otherwise granted once the bytes are free, however many polls it takes and whatever the server releases between them |
| DrawPacking.SetupPointers | src/client/caching_client.c:1567-1657 | for a draw that fits, all pointer commands are committed, all chunks are copied behind the place of the draw command, and that place is returned; otherwise nothing, or the start of the span |
| DrawPacking.SpanFilled | src/client/caching_client.c:1595-1652 | pointer commands, draw command, chunk copies and indices lie side by side and fill the span, without gap or overlap |
| DrawPacking.PackDraw | src/client/caching_client.c:1705-1725 | the ring holds the image of the draw, byte for byte, from the old `head` on, and no other byte of it changes; exactly the pointer commands, in order, and then the whole draw command are committed, and the draw command is the end of what is queued |
| DrawCalls.DrawArrays | src/client/caching_client.c:1660-1726 | an unknown mode, a negative number or nothing to draw is refused as the source does and leaves the ring untouched; else exactly the commands of the draw are committed, with the arrays copied for `first + count` vertices |
| DrawCalls.DrawElements | src/client/caching_client.c:1843-1947 | so for indexed draws, with bytes and shorts copied and the arrays copied for one vertex more than the largest index; four-byte indices draw nothing |
| DrawCalls.LeastCount | src/client/caching_client.c:1708 | every vertex the driver fetches is below the number for which the arrays are copied, and the one just below it is fetched |
| DrawCalls.FetchedVertexReads | src/client/caching_client.c:1595-1652 | in every run, until the slot is released, every byte of every vertex that the draw fetches reads as the application had it, of every attribute whose chunk is copied long enough |
| QueueBytes.BytePersists | src/ring_buffer.c:122-146 | over any stretch of any run a byte in use that is neither released nor stored to by its owner keeps its value |
| ClientProgram.LaidOutStays | src/ring_buffer.c:122-146 | in every run, what a program of the client laid out last at a place is there, committed or not, until it is released, if no handler stores to it |
| ClientProgram.UnpublishedReads | src/client/client.c:272-276 | what lies behind the committed bytes reads as laid out, although the server works on the ring meanwhile |
| ClientProgram.CommitsFollow | src/client/client.c:272-282 | in every run, if the client has performed a program that builds certain commands, exactly those have been committed, in order, behind the earlier ones, or the last one is just being committed |
| DrawProgram.ProgramBuilds | src/client/caching_client.c:1595-1652 | the stores and commits of a draw build the pointer commands of all attributes in list order and then the draw command with its payload and indices |
| DrawProgram.PartBuilds | src/client/caching_client.c:1624-1652 | a draw that has got part of the way has built the first so many of its commands |
| DrawProgram.CopiedFirstInDraw | src/client/caching_client.c:1623-1645 | however far a draw has got, the chunks of all attributes whose commands it has committed are copied completely, and no later store of the draw touches them |
| DrawLifetime.PointerAt | src/client/caching_client.c:1626-1643 | the pointer command of an attribute is at its place in the sequence and carries the address to which its chunk was copied |
| DrawLifetime.QueuedInOrder | src/client/caching_client.c:1595-1652 | in every run the commands that have joined the queue since the draw began are the first ones of the draw, interleaved with any steps of the server |
| DrawLifetime.DrawByteStays | src/client/caching_client.c:1615-1652 | every byte laid out for the draw command, its payload included, stays from the moment it is laid out until the slot is released |
| ChunkCoverage.SortedRuns | src/client/caching_client.c:1599-1609 | the chunks of a list kept in order are sorted by pointer, each of one number, and no two of the same |
| ChunkCoverage.CountsAsFetched | src/client/caching_client.c:1552-1562 | component sizes and strides are those by which a driver fetches: bytes 1, shorts 2, float and fixed 4, and packed tightly at stride zero (section 2.8 of OpenGL ES 2.0) |
| ChunkCoverage.CoveredExactly | src/client/caching_client.c:1552-1565 | every byte of every vertex of every attribute of a chunk is in its copy if and only if no attribute is read further than the last pointer plus its stride times the number of vertices |
| ChunkCoverage.OneStrideCovered | src/client/caching_client.c:1552-1565 | so it is with one stride for the chunk, not below any element's size |
| ChunkCoverage.MixedStridesNotCovered | src/client/caching_client.c:1557-1564 | two attributes that insertion puts into one chunk, with strides of 32 and 16, fail it |
| ChunkCoverage.LastByteNeeded | src/client/caching_client.c:1557-1565 | the last byte copied is one the driver reads if and only if some attribute is read right up to it; else the copy reads behind the application's data |
| DrawLifetime.VertexDataLifetime | src/client/caching_client.c:1595-1652 | in every run, from the moment the pointer command of an attribute joins the queue, the draw command being out by then or not, until the slot of the draw is released: that queued command carries a pointer into the payload of the draw, and every byte that was copied from there to the end of the chunk reads through it as the application had it, whatever the strides |
| DrawLifetime.PointersIntoCopy | src/client/caching_client.c:1552-1565 | in a list kept in order that is drawn with vertices of some size, that is so of every attribute, its first byte being copied |
| DrawLifetime.EveryVertexReads | src/client/caching_client.c:1595-1652 | so every byte of every vertex is read as the application had it, of every attribute of a chunk that is copied long enough |
| DrawLifetime.IndexDataLifetime | src/client/caching_client.c:1932-1947 | the draw command that joins the queue is the one laid out; the address it carries lies in its payload, behind the vertex data and up to its end, and shows the application's indices until its slot is released |
| DrawLifetime.HandledAsQueued | src/server/server.c:40-41 | the handler is given each of these commands as it was committed |
| DrawFields.HandledDraw | src/client/caching_client.c:1718-1724 | in every run, the draw command that the handler is given carries, at their offsets, its type, its own size, no token, and the mode and the first vertex and count, or the mode, count and index type, of the call |
| DrawFields.HandledAttrib | src/client/caching_client.c:1631-1643 | and each pointer command before it the index, size, type, normalization and stride of its attribute |
| ProgramRuns.ProgramPerformed | src/client/client.c:218-282 | every program that stores only ahead of what it has committed and within the space given is performed in some run |
| DrawRuns.DrawPerformed | src/client/caching_client.c:1595-1652 | every run in which the client is free and a draw's span is free in the ring goes on to one in which the draw has been packed and committed, so that the claims about draws apply |
| DrawLimits.GrantedBound | src/client/caching_client.c:1618 | a draw that is granted is longer than the ring by less than the pointer commands of the chunks before its last |
| DrawLimits.FittingIsGranted | src/client/caching_client.c:1586-1621 | a draw that fits the ring is granted every piece |
| DrawLimits.StaysInMapping | src/ring_buffer.c:65-83 | every store of a draw that begins at a given address is within the double mapping if and only if the span of the draw ends within it |
| DrawLimits.GrantedStaysInMapping | src/client/caching_client.c:1595-1652 | a granted draw is stored within the mapping wherever `head` stands if and only if it is longer than the ring by one byte at most |
| DrawLimits.GrantedBeyondMapping | src/client/caching_client.c:1618 | two attributes, put into the list by insertion, whose draw on the ring of one megabyte is granted every request and, begun in the ring's last 55 bytes, is stored beyond the mapping |
| LinkList.List.Append | src/types_private.c:5-27 | one new node at the end; the old nodes keep their order and the chain its shape |
| LinkList.List.Prepend | src/types_private.c:29-47 | one new node in front, and the old first node points back at it |
| LinkList.List.DeleteElement | src/types_private.c:62-76 | exactly that node goes; every node but the first still points at its true predecessor; the new first one's `prev` is stale after the first was deleted |
| LinkList.List.DeleteFirstMatching | src/types_private.c:49-60 | the first occurrence goes, if there is one |
| LinkList.List.Clear | src/types_private.c:78-94 | every element is handed to the delete function once, in order |
| LinkList.WithoutFirstAt | src/types_private.c:49-60 | removing the first occurrence keeps the order of all the others |
| LinkList.WithoutFirstCounts | src/types_private.c:49-60 | one copy at most is lost and nothing is added |
| HashTable.Table.constructor | src/util/hash.c:65-71 | an empty table |
| HashTable.Table.Lookup | src/util/hash.c:107-128 | the data of the key in the map the chains stand for, nothing for an absent key or zero |
| HashTable.Table.Insert | src/util/hash.c:165-198 | the map with the key added or its data replaced, the old data handed over; `MaxKey` is raised and bounds every key; every key stays once and in its own bucket |
| HashTable.Table.Remove | src/util/hash.c:200-233 | the map without the key, wherever in its chain it was |
| HashTable.Table.Take | src/util/hash.c:148-155 | the data of the key, which is then gone |
| HashTable.KeysUnique | src/util/hash.c:44-58 | chains that hold their own bucket's keys once each hold no key twice in all |
| HashTable.Table.OrderCovers | src/util/hash.c:331-397 | the enumeration order contains each key of the table exactly once |
| HashTable.Table.FirstEntry | src/util/hash.c:340-351 | the first key of that order, zero for an empty table |
| HashTable.Table.NextEntry | src/util/hash.c:360-397 | from any key to the next one of that order, zero at the end and for an absent key |
| HashTable.Table.NumEntries | src/util/hash.c:469-482 | the number of keys of the map |
| HashTable.Table.FindFreeKeyBlock | src/util/hash.c:434-463 | a result other than zero starts a block of free non-zero keys, on both paths; for one key or more, zero if and only if the range searched has no such block |
| NameHandler.AllocKeeps | src/client/name_handler.c:21-40 | names handed out are non-zero, not live and different from one another, and live and recyclable names still divide up `1..last_name` |
| NameHandler.AllocShape | src/client/name_handler.c:28-35 | recycled names go first and in order, only then is the counter raised |
| NameHandler.NonZeroParts | src/client/name_handler.c:66-72 | of names deleted all but zero are recycled, in their order |
| NameHandler.DeleteKeeps | src/client/name_handler.c:60-73 | the division is kept if and only if each name deleted is live and named once; zero may be among them |
| NameHandler.ClaimKeeps | src/client/name_handler.c:42-58 | the division is kept if and only if the claimed name is below `last_name` or is the next one |
| NameHandler.NamesConserved | src/client/name_handler.c:21-73 | over every history that keeps to those conditions the division holds at every point, and no name is issued that is zero or already live |
| NameHandler.DoubleDeleteIssuesTwice | src/client/name_handler.c:66-72 | a name deleted twice is handed out twice in a row |
| NameHandler.Handler.constructor | src/client/name_handler.c:4-12 | no name handed out, none to recycle |
| NameHandler.Handler.AllocNames | src/client/name_handler.c:21-40 | the output array is filled with exactly the names of the value-level allocation and the rest of it is left alone |
| NameHandler.Handler.AllocName | src/client/name_handler.c:42-58 | the counter or the list changes as the value-level claim says |
| NameHandler.Handler.DeleteNames | src/client/name_handler.c:60-73 | all names but zero are appended to the list, in order |
| NameTranslation.CachingClient.Gen | src/client/caching_client.c:2054-2076 | a negative count is refused and changes nothing; else the array and the queued command carry the same fresh names |
| NameTranslation.CachingClient.DeleteMany | src/client/caching_client.c:1049-1079 | the names are queued as they are, become recyclable, and the cached bindings change as the loop over them says |
| NameTranslation.CachingClient.Bind | src/client/caching_client.c:360-392 | 0x8892 sets the array binding and 0x8893 the element binding, each alone; a command with that target is queued exactly if the binding was another; any other target is an error and changes nothing |
| NameTranslation.NameMapping.HandleGenBuffers | src/server/server.c:68-91 | the table maps each name of the command to the driver's name at the same place |
| NameTranslation.TakenMeans | src/server/server.c:101-110 | whatever the names are: each becomes what the table holds for it, the first time it stands there, and stays as it is otherwise; exactly the named entries are gone |
| NameTranslation.NameMapping.HandleDeleteBuffers | src/server/server.c:93-115 | the command's names are replaced one by one by what the table held, which forgets them; unknown ones stay |
| NameTranslation.NameMapping.HandleBindBuffer | src/generated/build_gles2_cmd_buffer.py:3044-3060 | zero passes, a known name is translated, an unknown one is entered as standing for itself |
| NamingEndToEnd.TakeAllLive | src/server/server.c:101-112 | deleting live names, each once, takes out exactly them and passes on what each stood for |
| NamingEndToEnd.SeparateAfterGen | src/server/server.c:79-86 | different names keep leading to different driver objects after a Gen |
| NamingEndToEnd.OneMoreQueued | src/client/caching_client.c:2055-2075 | a command queued now is carried out, after all those before it, in exactly the naming it was issued in |
| NamingEndToEnd.ServedOne | src/server/server.c:68-115 | handling the oldest command makes the driver call that the command meant when it was issued |
| NamingEndToEnd.CallsAreMeant | src/client/name_handler.c:21-73 | in every run that uses live names only, every Gen, Delete and Bind reaches the driver in order and with exactly the driver names created by the Gens that issued those names, although names are recycled while commands are queued |
| NamingEndToEnd.TableWhenDrained | src/server/server.c:68-115 | when nothing is queued the table holds the live names and no other, each with its own driver name |
| NamingEndToEnd.UnboundMeans | src/client/caching_client.c:1073-1079 | the cached bindings of deleted buffers are reset, except the element binding of a buffer bound to both targets |
| NamingEndToEnd.StepBindings | src/client/caching_client.c:1073-1079 | a step keeps the cached bindings in agreement with the driver if and only if it does not delete a buffer bound to both targets |
| NamingEndToEnd.BelievedIsAsked | src/client/caching_client.c:360-392 | in every run without such a deletion, the cached binding of a target is the name bound to it last by the application, or zero if that has been deleted since |
| NamingEndToEnd.BindingsFollow | src/client/caching_client.c:360-392 | in every run without such a deletion, when nothing is queued, the driver, which goes by the value of the target alone, has bound to 0x8892 and to 0x8893 the very buffers whose names the application bound there last, although redundant Binds were never queued |
| NamingEndToEnd.StaleElementBinding | src/client/caching_client.c:1073-1079 | after such a deletion the client believes a name to be bound that the driver has unbound, the name is handed out again, and a Bind of it is dropped |
| NamingRuns.FirstName | src/client/caching_client.c:2054-2076 | a run that has come to rest with a live name |
| NamingRuns.StaleReached | src/client/caching_client.c:1073-1079 | every run that has come to rest with a live name goes on to such a state: bound to both targets, deleted, served |
| NamingEndToEnd.BindingUnknownName | src/generated/build_gles2_cmd_buffer.py:3050-3058 | entering an unknown name keeps names apart if and only if no other name stands for it |
| StateCache.ClientState.SetCap | src/client/caching_client.c:1297-1375 | the flag of the capability is set and the call goes through exactly if it changes; an unknown capability always goes through |
| StateCache.ClientState.StencilFuncSeparate | src/client/caching_client.c:2947-3009 | invalid faces and functions are refused; otherwise the faces named are set and the call goes through exactly if one of them changes |
| StateCache.ClientState.StencilMaskSeparate | src/client/caching_client.c:3021-3060 | so for the write masks |
| StateCache.ClientState.StencilOpSeparate | src/client/caching_client.c:3072-3132 | so for the operations |
| StateMeaning.ErrorMeans | src/generated/build_gles2_cmd_buffer.py:1087-1114 | a stencil call is an error exactly if a face, function or operation is not in the tables, by value |
| StateMeaning.CallMeans | src/client/caching_client.c:2947-3132 | a valid call gives each field it names, on each face it names, its argument, and changes no other field, face or capability |
| StateMeaning.FieldsAfter | src/client/caching_client.c:2947-3132 | after any calls each field of each face holds the argument of the last valid call that set it, else what it held at the start |
| StateMeaning.CapsAfter | src/client/caching_client.c:1297-1375 | so does each capability the driver knows |
| StateMeaning.HeldBackExactly | src/client/caching_client.c:1297-1375 | a call is held back if and only if it is no error and all it names, everywhere it names it, is in the cache already; of capabilities only the nine, by value |
| StateCache.StepAgrees | src/client/caching_client.c:2947-3132 | cache and driver stay in agreement; a call is held back only if it would change nothing, and a tracked one is forwarded if and only if it changes the driver's state |
| StateMeaning.FieldsThrough | src/client/caching_client.c:2947-3132 | from agreement, although calls are dropped: driver and cache hold in each field of each face what the application gave last |
| StateMeaning.CapsThrough | src/client/caching_client.c:1297-1375 | and the driver each capability as it was last set |
| StateCache.ElisionSound | src/client/caching_client.c:1297-1375 | for every sequence of calls, forwarding only what the cache lets through gives the same driver state and the same errors as forwarding everything, with agreement at every step (sections 4.1.4 and 4.2.2 of OpenGL ES 2.0) |
| StateCache.ElisionExactly | src/egl_state.c:123-140 | from a start where cache and driver differ in some of the four masks, for every sequence of calls: the driver is where forwarding everything would have it after each call if and only if no call is dropped that sets a mask differing at that moment; the errors are right in any case |
| StateCache.FirstMaskLost | src/egl_state.c:131-140 | of all first calls, for one face or both, exactly those are lost that set the mask the client starts with: a glStencilMask of it, or a glStencilFunc that differs from the cache in nothing |
| ImageCopy.SafeMultiply | src/util/gles2_utils.c:37-53 | fails if and only if the exact product does not fit in 32 bits, although it is computed wrapped |
| ImageCopy.SafeAdd | src/util/gles2_utils.c:55-66 | fails if and only if the exact sum does not fit |
| ImageCopy.ElementSizes | src/util/gles2_utils.c:194-215 | the bytes of an element, for every type by value |
| ImageCopy.PixelLaws | src/util/gles2_utils.c:159-192 | luminance, alpha and depth are one element, RGB three of luminance, RGBA is RGB and alpha, luminance-alpha is just these two, BGRA is as large as RGBA; a packed type is the whole pixel, whatever the format; nothing else has a size |
| ImageCopy.PaddedIsLeast | src/util/gles2_utils.c:132-134 | the padded row is the least multiple of the alignment that holds the row |
| ImageCopy.UploadSizes | src/util/gles2_utils.c:120-153 | a row is as many pixels as the row length says, or the width if there is none; the padded row is a multiple of the alignment, less than one alignment longer; the size is all rows but the skipped ones, the last unpadded |
| ImageCopy.ComputeImageDataSizes | src/util/gles2_utils.c:106-157 | for rows within the image it succeeds if and only if no exact intermediate exceeds 32 bits, and then gives all padded rows but the last and one unpadded |
| ImageCopy.CopyRectToBuffer | src/util/gles2_utils.c:68-104 | exactly the rows' bytes are written and no byte behind them, on both paths, with start and distance of the rows taken in 32 bits |
| ImageCopy.CopiedRows | src/util/gles2_utils.c:86-103 | with unequal padded sizes all rows are copied, at distances of the source's padded row; with equal ones the rows behind the skipped ones, at distances of a padded row and the skipped pixels in 32 bits; each byte from its place |
| ImageCopy.RowsAt | src/util/gles2_utils.c:91-101 | every byte of every copied row comes from its row in the source |
| ImageCopy.CopyFillsSize | src/util/gles2_utils.c:68-157 | the copy writes precisely as many bytes as were sized, whatever pixels and rows are skipped; without skipped pixels they are one contiguous piece of the source |
| ImageCopy.UploadImage | src/command_custom.c:41-52 | sizes, buffer and copy together: it succeeds exactly without overflow, the buffer is as long as rows of pixels are and padding makes it, and the copy fills it from its first byte to its last; an overflow is refused unread, however small the application's memory |
| ImageCopy.CopyIsWanted | src/util/gles2_utils.c:96-101 | the copy is the image the unpack parameters ask for, whatever the pixels, if and only if no pixels are skipped or there is one row only |
| IndexMaximum.OnlyMaximum | src/client/caching_client.c:1815-1840 | being an upper bound and an element, or zero, determines the maximum |
| IndexMaximum.MaxOfLanes | src/client/caching_client.c:1777-1785 | the lane-wise maximum keeps the maximum over all lanes |
| IndexMaximum.ElementsCount | src/client/caching_client.c:1814-1840 | one more than the largest index |
| IndexMaximum.ElementsCountByLanes | src/client/caching_client.c:1744-1811 | the vector loop with its reduction and its tail returns the same, for bytes and shorts and every count |

## Left out

- QueueSync.SyncCallReturnsAfterHandling: under two hypotheses on the run, because without them it is false: the client does not write over a released slot's token before it is read (src/server/server.c:41-45), and fewer than 2^32 synchronous calls are made (src/client/client.c:258-267). TokenSlots has the exact condition of the first, TokenWrap and QueueLimits the runs that fail.
- QueueSync.TokensMonotone: under the same two hypotheses.
- QueueSync.StoreTokenSyncs: of states with the token invariant, which the same two hypotheses keep.
- QueueProgress.NeverBothStuck: under the same two hypotheses, since a client that missed its token could wait for ever.
- QueueProgress.ServerAloneFreesClient: of states with the token invariant, so of runs that meet the same two hypotheses, and with handlers that store nothing. QueueProgress.CallReturns has neither.
- QueueProgress.CallGoesOn: under the same two hypotheses. That the threads go on taking steps, and that a handler stores only so often, is the scheduler's and the driver's.
- DrawPacking.SetupPointers: for draws whose span fits the ring if every request is granted. A longer span may be granted bit by bit, because the request for a further chunk is counted from behind the pointer commands already committed (src/client/caching_client.c:1618). The class says nothing of such draws, as its contract is about one round of the ring; ClientProgram.CommitsFollow and the lemmas of DrawLifetime hold of them, and DrawLimits says when their addresses leave the mapping. The unfinished path for large data (src/client/caching_client.c:1654-1656) is not modelled.
- DrawPacking.GetSpace: a server that never again releases anything is left out; QueueProgress.WaitEnds says of the state machine that the polling ends.
- DrawPacking.PackDraw: `enabled_count` is taken to be the length of the list; EnabledAttribs.CallKeeps says exactly when it is.
- DrawLifetime.VertexDataLifetime: of attributes that do not lie below the first of their chunk, as no attribute does in a list kept in order, since otherwise the pointer is to before the copy; and for handlers that store nothing into the draw's own slot, as the two draw handlers do. Addresses are counted from the start of the mapping and lie below 2^64.
- DrawCalls.DrawArrays: for draws that fit the ring, as DrawPacking.PackDraw; framebuffer completeness and vertex array objects are not looked at, and `first + count` does not overflow.
- DrawCalls.DrawElements: the same; indices in an element array buffer are not copied by the source and not modelled.
- DrawFields.HandledDraw: the padding bytes of the commands, which the source leaves as they were, are zero here; no handler reads them.
- DrawLifetime.EveryVertexReads: of chunks that are copied long enough; ChunkCoverage.CoveredExactly says exactly which are not.
- DrawRuns.DrawPerformed: the space is asked for at once and the server takes no step; the claims about draws are for any requests and interleavings.
- DrawPacking.Readable: the copy of a chunk reads to the end of the last attribute's stride, which may be behind the application's data (ChunkCoverage.LastByteNeeded says when); the model takes the memory there to be readable.
- EnabledAttribs.EnabledList.Add: chunk numbers do not wrap around at 2^32; what later calls do to a list without an end is not modelled.
- NameHandler.Handler.AllocNames: the counter stays below UINT_MAX, as the code asserts.
- NamingEndToEnd.CallsAreMeant: one client and one kind of object, buffers. The one table of the server serves all kinds and clients, so names of two kinds may meet in it.
- NamingEndToEnd.BindingsFollow: the array bindings that single vertex attributes remember are not modelled.
- HashTable.Table.Insert: data is never null and memory never runs out; locks and the walk with callbacks are not modelled.
- StateCache.ElisionSound: starts from agreement, which does not hold of the masks when a context is made; StateCache.ElisionExactly says exactly what that costs. The nine flags and the stencil fields are grouped into three records.
- ImageCopy.ComputeImageDataSizes: heights and rows to skip whose difference overflows a signed integer have no meaning in the source.
- Shutdown of the server: it leaves its loop without acknowledging the token (src/server/server.c:37-38).
- The no-op command, whose size is zero (src/command.c:11): every command here is at least as long as its header.
- The loops of the client's run and wait functions and of the server are steps of the state machine, not methods: two threads that share memory are not one sequential program.
- Weak memory order: the model is sequentially consistent, as the atomic counter and the semaphores are meant to make it.
- The struct layouts are those of a 64-bit machine: header 24 bytes, pointer command 56, draw commands 40 and 48.
- Mapping of memory, thread start and affinity, dispatch tables, the driver itself: operating system and foreign calls.
- Contexts and surfaces, framebuffer completeness, cached textures, blend functions, viewport and other cached values: there cache and driver need not agree, or the members would be easy.
- Uploads of part of a texture: row length and rows to skip are passed in the other order (src/command_custom.c:86-87).
- Deletion of renderbuffers at the server, which calls the deletion of buffers (src/server/server.c:257).
- The code generator, tables of enumerations, uniforms, string caches.
