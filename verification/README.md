# conduit-p2p: a verified model

conduit-p2p is an asynchronous Bitcoin P2P client. This project models its four hard parts and proves what each
promises, for all inputs, all runs and all interleavings:

- **The streaming block splitter.** `skip_one_tx` and `tx_preprocessor` find transaction boundaries in raw bytes;
  `handle_big_block` drives them over fixed-size reads and hands on chunks of whole transactions. It is compared with
  `handle_small_block`, which scans the whole block in one call, on *arbitrary* byte strings.
- **Message framing and codecs.** The session loop reads headers and payloads in three branches from one byte stream;
  the payload printers and parsers undo each other.
- **Header sync, reorganisations and persistence.** The locator, the peer's answer, the block tree with its list of
  chains, the reorganisation reports, and the header file with its cursor.
- **The client manager.** Connect tasks and reallocation tasks cut at their await points, who starts them, and
  round-robin selection.

Where the source updates state in place or loops (client, headers store, client manager, preprocessor, parsers,
printers), the model is a class or a method with loops, and its contract equates the new state with a specification
function. The results are lemmas about those functions.

| files | source |
|---|---|
| `Bytes.dfy`, `Preprocessor.dfy`, `Wire.dfy` | `preprocessor.py`, and the wire layout of transactions and blocks |
| `Blocks.dfy`, `Streaming.dfy`, `Session.dfy`, `Framing.dfy`, `Client.dfy` | `client.py`, `serializer.py` (framing) |
| `Codec.dfy` | `serializer.py`, `deserializer.py`, `utils.py` |
| `HeaderTree.dfy`, `Batches.dfy`, `Persistence.dfy`, `Reorg.dfy`, `HeadersStore.dfy`, `Sync.dfy` | `headers.py`, `get_max_headers` |
| `Pools.dfy`, `Startup.dfy`, `Selection.dfy`, `Reallocation.dfy`, `Manager.dfy` | `client_manager.py`, `on_addr` of `handlers.py` |

Formats follow the Bitcoin wiki, "Protocol documentation", sections "Variable length integer", "tx", "block",
"Message structure", "inv", "getheaders" and "headers".

## What was found

Properties that fail, each with the exact condition under which they hold:

- A big block is split correctly exactly when its header and count fit the first read and *every later read completes a
  transaction*. Otherwise an honest peer is disconnected as misbehaving (`BigBlockCompletesExactly`,
  `StalledBlockIsRefused`, `LongTransactionIsRefused`). No transaction longer than the limit is sufficient.
- The transaction count of a block is never compared with its transactions: a block of no transactions that claims five
  is accepted (`ClaimedCountIsIgnored`). An accepted block is a well-formed one exactly when the count it claims is the
  number of offsets found (`SmallBlockAcceptsExactly`, `WellFormedExactly`).
- An extended message is accepted exactly when the hash of its payload starts with four zero bytes; for a block, small or
  big, the block handlers must accept it too (`ExtendedMessageNeedsZeroHash`).
- A payload that ends early raises only where a number is read: an inv that lacks bytes of its last hash is accepted
  with a short hash, and a getheaders with no hashes at all (`CutInvAccepted`, `CutLocatorAccepted`).
- `ZERO_HASH` is 64 ASCII characters, so 32 bytes of a default getheaders payload are left over (`ZeroHashIsTooLong`).
- Header download makes progress exactly when the fork is at most 576 below the tip or the tip is below the peer's cap;
  otherwise it repeats the same round for ever (`RoundRaisesTipExactly`, `DeepForkNeverSyncs`, `DeepForkExists`).
- The report on a peer's linear answer is right exactly when it brings nothing new, stands on the best tip, overtakes from
  below all tips, or stands on the tip of a side chain without overtaking (`ReportIsRightExactly`). So a side chain that
  overtakes is missed (`OvertakingSideChainIsMissed`), and a fork that does not overtake raises (`SideForkIsRaised`).
- For any batch, the height of a reported reorganisation is right exactly when nothing new in the batch stands on the old
  tip, or the chains share genesis alone (`ReorgIsExact`); `ExtendedTipIsMistaken` is a batch for which it is not.
- Pools stay consistent exactly when no two connect tasks share a client (`PoolsNeverFailExactly`), and two do exactly
  when a peer's new address is handled while `connect_all_peers` is still going through the clients. With a concurrency
  above one, an address found later never gets all its clients started (`OneTaskEachExactly`, `EarlyAddressSharesClient`).
- Queued work is lost exactly when a reallocation task crashes while it holds items: on a selection index left out of
  range by removals, or on a message to a client that is gone (`WorkIsConserved`, `StaleIndexLosesWork`,
  `InterruptLosesWork`).

Where the code and its documentation disagree, the model follows the code: the class comment in
`conduit_p2p/client.py:56-57` calls a block of exactly the limit small, but the code (and the repository's README) treat
it as big; `tx_preprocessor` returns the bare `offset`, not the adjusted one, when no transaction completes.

## Assumptions

- SHA-256 is an arbitrary function on byte strings, passed as a parameter; framing needs only that its results are 32
  bytes long. Sync assumes that a peer's headers do not collide with ours.
- `bitcoinx.Headers` is not part of the repository. It is modelled as a block tree: a header needs a known parent, a known
  header is ignored, a header on a chain's tip lengthens that chain and any other starts a new one, every header is equal
  work, and a tie keeps the incumbent. Other exceptions of `connect` (proof of work) are not part of this model.
- A reader holds all bytes the peer sends before the connection ends. The network magic is four bytes, the first of them
  not below 0x10, as for all four networks, so comparing hexadecimal text is comparing bytes.
- `num_chunks` is the exact ceiling; the float division of the code agrees below 2^53.

## Model

| member | source | states |
|---|---|---|
| ByteStrings.UnpackPackVarint | conduit_p2p/preprocessor.py:20-28 | the varint decoder inverts the encoder at all four widths, wherever the varint stands |
| ByteStrings.PackUnpackVarint | conduit_p2p/preprocessor.py:20-28 | whatever the decoder accepts is an encoding of what it returns, of the width its first byte says |
| ByteStrings.VarintFormat | conduit_p2p/preprocessor.py:20-28 | the format byte by byte: 253, 254 and 255 mark two, four and eight bytes, the lowest first |
| Preprocessor.SkipOneTx | conduit_p2p/preprocessor.py:31-52 | the loops compute the specified end of a transaction, in a number of iterations linear in the buffer, however large the claimed counts |
| Preprocessor.SkipTxWindow | conduit_p2p/preprocessor.py:31-52 | scanning any window of a buffer agrees with scanning the buffer, exactly on what ends in the window |
| Preprocessor.SkipTxTruncated | conduit_p2p/preprocessor.py:31-52 | a result on a short buffer is unchanged by extension, and an end inside the short buffer is found there exactly when it is found in the long one |
| Preprocessor.SkipTxDropped | conduit_p2p/preprocessor.py:31-52 | skipping commutes with dropping a prefix |
| Preprocessor.TxPreprocessor | conduit_p2p/preprocessor.py:55-91 | terminates on every buffer with linearly many inner iterations; returns all completed starts, adjusted, and the last end (the bare offset if there is none) |
| Preprocessor.BoundsAdvance | conduit_p2p/preprocessor.py:77-87 | offsets are strictly increasing, each accepted transaction advances at least ten bytes |
| Preprocessor.BoundsWindow | conduit_p2p/preprocessor.py:55-91 | scanning a window finds exactly the whole buffer's boundaries up to its end |
| Preprocessor.BoundsResume | conduit_p2p/preprocessor.py:69-72 | a scan resumed at the last boundary found continues where it stopped |
| Wire.SkipsTx | conduit_p2p/preprocessor.py:31-52 | exactly the bytes of a printed transaction are skipped, for any varint widths and script lengths |
| Wire.AcceptedTx | conduit_p2p/preprocessor.py:31-52 | the converse: a completed skip covers the bytes of a well-formed transaction |
| Wire.BlockBounds | conduit_p2p/preprocessor.py:55-91 | on a well-formed block the scan gives the prefix sums of the transaction lengths, one per transaction, and the end of the block |
| Blocks.SmallBlockAcceptsExactly | conduit_p2p/client.py:354-379 | a small block is accepted exactly if it is a header, any count, and well-formed transactions |
| Blocks.ClaimedCountIsIgnored | conduit_p2p/client.py:361-375 | a block of no transactions that claims five is accepted |
| Blocks.WellFormedExactly | conduit_p2p/client.py:354-379 | bytes are a well-formed block exactly if they are accepted and the count read is the number of transactions found |
| Blocks.ReadStep | conduit_p2p/client.py:283-335 | the loop invariant: before each read the stream is the block from the last cut to the last byte read; a step either stalls or hands on the next chunk and keeps this |
| Streaming.BigBlockCompletesExactly | conduit_p2p/client.py:266-352 | for every byte string and step size a big block is accepted exactly if it all arrives, would be accepted as a small block, has header and count in the first read, ends a transaction in every later read, and its double hash starts with the checksum |
| Streaming.BigBlockEndsExactly | conduit_p2p/client.py:266-352 | which of the five ways every big block ends in, whatever arrives of it: accepted, reset, misbehaving on a read without a transaction end or a wrong checksum, crashed on a count or an end that does not fit |
| Streaming.BigBlockAgreesWithSmall | conduit_p2p/client.py:266-379 | an accepted big block reports the hash, size and full offset list the small block handler reports for the same bytes, consumes exactly its bytes, and its chunks are numbered 1 to num_chunks and carry the double hash of the header |
| Streaming.StalledBlockIsRefused | conduit_p2p/client.py:320-321 | a later read without a transaction end leads to misbehaviour, whatever the checksum |
| Streaming.LongTransactionIsRefused | conduit_p2p/client.py:320-321 | a well-formed block with a right checksum that is refused |
| Streaming.ShortTxsNeverStall | conduit_p2p/client.py:266-352 | no transaction longer than the limit is sufficient |
| Streaming.WellFormedBlockStreams | conduit_p2p/client.py:266-379 | every well-formed block whose front and transactions fit the limit is accepted by both handlers, with the prefix sums of its transaction lengths |
| Streaming.ChunksAreNumbered | conduit_p2p/client.py:298-335 | in every run, failed ones too, the events are chunks 1, 2, ... without gaps |
| Streaming.StepCount | conduit_p2p/client.py:277-292 | the block has been read after num_chunks reads and not before |
| Streaming.ChunksConserve | conduit_p2p/client.py:283-335 | in every run the emitted slices and offsets are those of a prefix of the block |
| Streaming.ChunksRebuildTheBlock | conduit_p2p/client.py:283-335 | the slices of an accepted block concatenate to the block, and the chunk offsets to all offsets |
| Streaming.ChunksHoldAllTheyCan | conduit_p2p/client.py:317-334 | the first k chunks end at the last transaction end among the bytes of the first k reads |
| Streaming.ChunkStandsAlone | conduit_p2p/client.py:317-334 | each chunk scanned on its own shows exactly its transactions, up to its end; later chunks are not empty |
| Client.BitcoinClient.ReadHeader | conduit_p2p/client.py:130-155 | the header read from the unread bytes, its exceptions, and what is left unread |
| Client.BitcoinClient.ReadSmallPayload | conduit_p2p/client.py:210-223 | a payload is returned exactly if it all arrives and its double hash starts with the checksum |
| Client.BitcoinClient.HandleSmallBlock | conduit_p2p/client.py:354-379 | the events and outcome of the small block specification |
| Client.BitcoinClient.HandleBigBlock | conduit_p2p/client.py:266-352 | the reading loop delivers exactly the chunks, final report, consumption and outcome that the whole block's boundaries prescribe |
| Client.BitcoinClient.ReadAndHandlePayload | conduit_p2p/client.py:157-170 | the three branches |
| Client.BitcoinClient.RunSession | conduit_p2p/client.py:172-183 | the session loop delivers and consumes what the stream prescribes, and always ends with an exception |
| Framing.SessionStaysAligned | conduit_p2p/client.py:172-183 | printed messages that complete deliver their events in order, consume exactly 24 plus length bytes in all three branches, and the session goes on with what follows |
| Framing.SessionReportsWhatWasSent | conduit_p2p/client.py:130-183 | any sequence of messages and well-formed blocks is reported in order, and the session ends at the end of the stream |
| Framing.SessionStopsAtFirstFailure | conduit_p2p/client.py:185-194 | nothing after the first message that fails is delivered |
| Framing.ConnectionLostAnywhere | conduit_p2p/client.py:130-194 | a connection that ends anywhere in a printed stream: all messages before the cut are delivered, of the one it cuts nothing but chunks, and the session is reset |
| Framing.SmallMessageEndsExactly | conduit_p2p/client.py:157-223 | how a message that is no big block ends, on its bytes: misbehaving exactly if the double hash does not start with the checksum; else queued under its name, or reported as a block, or crashed if the block does not scan to its end |
| Framing.RefusedHeaders | conduit_p2p/client.py:130-155 | how a header alone ends the session: cut short, foreign magic, a command that is no ASCII, an extended header with another length or checksum |
| Framing.BadMessageDeliversNothing | conduit_p2p/client.py:144-145 | a wrong magic, or a wrong checksum outside a big block, delivers nothing and is misbehaviour |
| Framing.BadBigBlockIsNeverDone | conduit_p2p/client.py:348-352 | on_block never fires for a big block with a wrong checksum |
| Framing.EveryDeliveryIsAuthentic | conduit_p2p/client.py:130-183 | on every byte stream, whatever is queued, handed on or reported as done comes from a message with the right magic that starts at a boundary the session reached; its length and, but for chunks, its checksum are right, and block hashes are the double hash of the header |
| Framing.ExtendedMessageNeedsZeroHash | conduit_p2p/deserializer.py:109-119 | an extended message is accepted exactly if its payload's hash starts with four zero bytes and, for a block, small or big, the block handler accepts the payload; otherwise nothing but chunks is delivered |
| Framing.HeaderReadBack | conduit_p2p/serializer.py:72-76 | the header printed by payload_to_message is read back, whatever follows |
| Codec.InvPayloadRoundTrip | conduit_p2p/deserializer.py:199-207 | inv and getdata payloads of any length parse back to the printed list and are consumed exactly |
| Codec.HeadersPayloadRoundTrip | conduit_p2p/deserializer.py:209-218 | headers payloads of any length parse back to the printed raw headers and are consumed exactly |
| Codec.LocatorRoundTripsExactly | conduit_p2p/deserializer.py:230-242 | a getheaders payload parses back and is consumed exactly if and only if its stop is at most 32 bytes long |
| Codec.ZeroHashIsTooLong | conduit_p2p/constants.py:22 | with the default stop 32 bytes stay unread |
| Codec.InvLayout | conduit_p2p/serializer.py:109-124 | where the type, lowest byte first, and the hash of each item stand in the payload |
| Codec.HeadersLayout | conduit_p2p/utils.py:66-73 | where each raw header stands in the payload, followed by a zero |
| Codec.LocatorLayout | conduit_p2p/serializer.py:126-138 | where version, count, hashes and stop stand in the payload |
| Codec.CutInvAccepted | conduit_p2p/deserializer.py:199-207 | an inv payload that is cut short is accepted exactly if only bytes of the last hash are missing, and then with a short hash |
| Codec.CutHeadersRaise | conduit_p2p/deserializer.py:209-218 | any headers payload is refused wherever it is cut short |
| Codec.CutLocatorAccepted | conduit_p2p/deserializer.py:230-242 | a getheaders payload that is cut short is accepted exactly if version and count are there |
| Codec.InvSurvivesTheWire | conduit_p2p/serializer.py:109-124 | a list that is printed, framed, sent and read by a session arrives as one queued message that parses to the same list |
| Codec.DeserializeInv | conduit_p2p/deserializer.py:199-228 | the counted loop computes the specified list, or raises, on every payload |
| Codec.DeserializeHeaders | conduit_p2p/deserializer.py:209-218 | the counted loop computes the specified raw headers, or raises, on every payload |
| Codec.DeserializeGetHeaders | conduit_p2p/deserializer.py:230-242 | the counted loop computes the specified locator, or raises, on every payload |
| Codec.SerializeInvs | conduit_p2p/serializer.py:109-124 | the loop prints the specified payload |
| Codec.SerializeGetHeaders | conduit_p2p/serializer.py:126-138 | the loop prints the specified payload; the count is not compared with the list |
| Codec.HeadersToP2pStruct | conduit_p2p/utils.py:66-73 | the loop prints the specified payload |
| HeaderTree.ConnectKeepsValid | conduit_p2p/headers.py:97-102 | connecting any header keeps the store a parent-closed tree of chains with an exact index and a highest best chain |
| HeaderTree.AncestryIsUnique | conduit_p2p/headers.py:212-221 | a linked path that meets a chain lies on it: a hash decides its whole ancestry |
| Batches.BatchAddsExactly | conduit_p2p/headers.py:86-115 | a batch removes and moves nothing; it adds exactly all its headers on success, and on failure those before the first unconnectable one |
| Batches.StreamIsBatch | conduit_p2p/headers.py:90-110 | reading and connecting in turn is parsing the message and connecting the list |
| Persistence.WriteCatchesUp | conduit_p2p/headers.py:63-67 | a write brings the file up to all of memory, chain by chain, whatever earlier batches left unwritten, and appends nothing that is there already |
| Persistence.ReplayIsFaithful | conduit_p2p/headers.py:69-77 | the file always replays without a missing parent to a subset of memory, and after a write to exactly the chains in memory |
| HeadersStores.EveryRunIsReplayed | conduit_p2p/headers.py:63-115 | the same over any run of batches, failed ones among them, which leave file and cursor as they were |
| HeadersStores.EachHeaderWrittenOnce | conduit_p2p/headers.py:63-67 | over any run of batches no header is in the file twice |
| HeadersStores.HeaderConnectsExactly | conduit_p2p/headers.py:97-110 | a message with one new header connects it exactly if the header its prev field names is in the store, one above that one and under the double hash of its 80 bytes |
| HeadersStores.OpenStore | conduit_p2p/headers.py:50-77 | reading any file gives its replay and a cursor that covers it, or raises exactly if a record's parent is missing |
| HeadersStores.HeadersStore.WriteCachedHeaders | conduit_p2p/headers.py:63-67 | appends exactly the unpersisted headers and moves the cursor to the end |
| HeadersStores.HeadersStore.ConnectHeaders | conduit_p2p/headers.py:86-115 | the loop connects what the message prescribes, on truncated messages too; it writes exactly on success, and keeps the file in step |
| HeadersStores.HeadersStore.ChainHashesCommonParentToTip | conduit_p2p/headers.py:212-221 | the walk back gives the hashes from the tip down to above the common height, tip first |
| HeadersStores.HeadersStore.FindCommonParent | conduit_p2p/headers.py:147-179 | the loop finds the two chains by their tips; the highest common height, or 0 if the old tip is no chain's tip |
| HeadersStores.HeadersStore.ReorgDetect | conduit_p2p/headers.py:181-210 | a common height exactly if the new tip is higher and the height is below the old tip |
| HeadersStores.HeadersStore.ConnectHeadersReorgSafe | conduit_p2p/headers.py:223-264 | the report and new state that the message's headers prescribe, and when it raises |
| Reorg.ReorgReplays | conduit_p2p/headers.py:252-260 | for any batch: dropping the old branch and appending the reverse of the new one turns the old best chain into the new one; lengths are as promised, the start header is the lowest of the new branch, its parent the common header, and the stop header the new tip |
| Reorg.NewTipReported | conduit_p2p/headers.py:261-263 | a plain new tip starts at the first header of the batch and stops at the best tip, and all of the batch has been connected |
| Reorg.TipSurvivesExactly | conduit_p2p/headers.py:165-173 | after any batch an old tip still ends a chain exactly if nothing new in the batch stands on it |
| Reorg.ReorgIsExact | conduit_p2p/headers.py:147-179 | for any batch: the reported height is the highest common one exactly if the branches are disjoint, and exactly if nothing new stands on the old tip or the chains share genesis alone |
| Reorg.OvertakingForkReportedExactly | conduit_p2p/headers.py:252-263 | a linear batch that ends above the tip: a plain new tip on the best tip, a missed reorganisation on a side chain's tip, and otherwise a reorganisation with its exact height |
| Reorg.SideForkRaises | conduit_p2p/headers.py:191-207 | a linear batch that does not end above the tip keeps the best chain, and raises exactly if it forks off below every tip |
| Reorg.ReportIsRightExactly | conduit_p2p/headers.py:223-264 | exactly when the report on a linear batch says what happened to the best chain |
| Reorg.SideForkIsRaised | conduit_p2p/headers.py:191-207 | one block beside the tip is connected and raises |
| Reorg.OvertakingSideChainIsMissed | conduit_p2p/headers.py:252-263 | a known side chain that overtakes is reported as a plain new tip |
| Reorg.ExtendedTipIsMistaken | conduit_p2p/headers.py:172-173 | a batch that extends the tip and starts a fork is reported as a reorganisation from genesis |
| Sync.LocatorCovers | conduit_p2p/client.py:496-501 | locator heights start at the tip, strictly decrease, number at most 13; the highest entry at or below a shared height is the least square back, with fewer than 8k-4 shared headers above it |
| Sync.GetMaxHeaders | conduit_p2p/client.py:492-502 | the loop takes the hashes of the best chain at the tip and at the squares of 2, 4, ..., 24 below it, as far as heights are positive |
| Sync.AnswerStart | conduit_p2p/client.py:492-502 | an honest peer answers after the highest locator entry that is shared, or after genesis |
| Sync.RoundRaisesTipExactly | conduit_p2p/client.py:492-502 | a round raises the tip exactly if the fork is at most 576 deep or the tip is below the cap, and then the best chain is the peer's |
| Sync.DeepForkNeverSyncs | conduit_p2p/client.py:496-499 | otherwise no number of rounds changes the best chain |
| Sync.DeepForkExists | conduit_p2p/client.py:496-499 | 2001 headers against a peer's 2100 that share genesis alone, with a cap of 2000: our best chain stays for ever |
| Sync.DownloadHeaders | examples/high_level_api_header_and_peer_persistence.py:37-44 | under that condition the download loop ends with the peer's whole chain as best chain, all of it in the file |
| Pools.PoolsStayPartitioned | conduit_p2p/client_manager.py:222-274 | in every interleaving, with one task per client, no removal fails and each started client is in exactly one pool |
| Pools.PoolsAreDisjoint | conduit_p2p/client_manager.py:222-274 | what partitioned means: no client is in both pools, and those in one are those with a started task |
| Pools.PoolsNeverFailExactly | conduit_p2p/client_manager.py:245 | no interleaving fails exactly if no two tasks share a client |
| Pools.PoolGrowsAtItsEnd | conduit_p2p/client_manager.py:246-247 | in every interleaving, as long as no client is lost, new clients come behind all that are in the pool |
| Pools.LostLeavesOrder | conduit_p2p/client_manager.py:268-270 | a lost client leaves the others in their order |
| Pools.SleepsAsPromised | conduit_p2p/client_manager.py:227-273 | in every interleaving a task sleeps five seconds after a lost connection, ten minutes after a refused one, and the next longer time after a failed handshake, whatever other tasks do meanwhile |
| Pools.RetriesBackOff | conduit_p2p/client_manager.py:227-238 | failed handshakes go one entry of the sleep table further each time and stay at the last |
| Startup.OneTaskEachExactly | conduit_p2p/client_manager.py:283-285 | the started tasks keep the pools in order exactly if no address was found while the loop ran; each client has a task exactly if none was found later, or concurrency is one |
| Startup.LastOfEachIsStarted | conduit_p2p/handlers.py:76-80 | each address found adds as many clients as the concurrency says, and the last of them is started |
| Startup.EarlyAddressSharesClient | conduit_p2p/handlers.py:71-80 | an address found during the loop gets two tasks for one client |
| Manager.BitcoinClientManager.ConnectSucceeds | conduit_p2p/client_manager.py:242-247 | the stretch after a successful connect, as a step of the state machine |
| Manager.BitcoinClientManager.ConnectFails | conduit_p2p/client_manager.py:234-241 | the stretch after a failed connect |
| Manager.BitcoinClientManager.ConnectionLost | conduit_p2p/client_manager.py:260-273 | the stretch after a lost connection |
| Manager.StretchesAreLocal | conduit_p2p/client_manager.py:222-274 | a stretch changes the pools and its own task as it would alone |
| Manager.BitcoinClientManager.ConcurrentBroadcast | conduit_p2p/client_manager.py:316-328 | the targets are the next clients in turn; IndexError exactly if the index is out of range |
| Manager.BitcoinClientManager.DrainRequests | conduit_p2p/client_manager.py:201-208 | the loop takes the whole queue, in order |
| Selection.TargetsAreDistinct | conduit_p2p/client_manager.py:165-170 | the selected clients are those after the index, in the order of the pool and round it; they are pairwise different, and all of the pool if as many are selected |
| Selection.IndexStaysInRange | conduit_p2p/client_manager.py:165-199 | over any run of selections and additions the index stays in range and no selection fails |
| Selection.StaleIndexStaysStale | conduit_p2p/client_manager.py:167-170 | an index left out of range by removals fails every later selection |
| Selection.RemovalMakesStale | conduit_p2p/client_manager.py:167-170 | one removal is enough to put the index out of range |
| Reallocation.WorkIsConserved | conduit_p2p/client_manager.py:201-220 | over every interleaving, with selections by others among its steps, no item appears, disappears or is doubled, each task delivers in order to one client, queues keep their bound; every item stays deliverable exactly if no task crashes while it holds items |
| Reallocation.QueuesKeepOrder | conduit_p2p/client_manager.py:201-213 | over every interleaving each queue works first in, first out: without a drain it is what it was, followed by what was put to it, in the order of the puts |
| Reallocation.QueueSinceDrain | conduit_p2p/client_manager.py:201-213 | a drain takes the whole queue in its order, and the queue is then what is put to it afterwards |
| Reallocation.SelectionsGoRound | conduit_p2p/client_manager.py:165-199 | selections in a row by tasks and broadcasts take the clients after the index, one by one and round the pool |
| Reallocation.StaleIndexLosesWork | conduit_p2p/client_manager.py:167-170 | a run in which an item is lost |
| Reallocation.InterruptLosesWork | conduit_p2p/client_manager.py:213-220 | a run in which a message to a client that is gone loses what was not put yet |

## Left out

- Sockets, task scheduling inside asyncio, timers, keepalive, logging, DNS and the peers file: input and output.
- The handshake, broadcast waiting and reject maps: driven by wall-clock time.
- Message handlers and their queues: only what the session hands them, in order, is modelled.
- Whether a pooled client's connection is live, and that `connection_lost_event` stays set after a failed handshake: a
  lost connection may come at any time in the model.
- Hexadecimal text of hashes, `version` and `addr` payloads: library formatting; hashes are kept as bytes.
- `getblocks`: same layout as `getheaders`. `unpack_header` and transaction parsing: inside bitcoinx.
- Proof of work and chain work: inside bitcoinx; a `connect` that raises anything but a missing header is not modelled.
- ReorgInfo: its two tips are filled in the opposite order to their field names; results are stated on the branches.
- Locks of the headers store: its methods are taken as atomic.
- Persistence.ReplayIsFaithful: the chains, places and best height are those of memory; of two equally high tips the
  replay may prefer the other one.
- Pools.PoolsStayPartitioned: exceptions of `connect` other than the two that are caught are not modelled.
- Streaming.BigBlockCompletesExactly: offsets are unbounded integers, while the array type of the code holds 64 bits.
