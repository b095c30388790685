# AsioNetMiddleware, modelled in Dafny

AsioNetMiddleware is a TCP gateway written in C++ on asio, with a C++ test client and a C# client library.
Clients, game servers and test servers connect to the gateway. Each connection is a session with a five-state lifecycle.
Its bytes are cut into frames: an 11-byte header (a one's-complement mask, a 15-bit command with a compressed flag, a sequence number and a payload length) followed by the payload.
A session logic decides what a frame means:
- the default logic runs the authentication handshake;
- the client logic decrypts, decompresses and forwards;
- the server logic unicasts, broadcasts and confirms connections;
- the test client's active-server and inner-pair logics store frames in a shared ring buffer.
The proxy manager keeps three uid-keyed tables (unmanaged, client, server), promotes sessions between them once authenticated, routes sends, kicks peers and sweeps closed sessions.
Around this sit supporting pieces: a cursor buffer, a C++ ring buffer, an object pool, a thread-safe hash map, an xorshift generator and a logger.
The C# client has its own framing (`SocketClient`), ring buffer, size-class block pool and send-queue batching (`NetworkManager`).

The project has one Dafny module per source file, in a file of the same name:

- `proto_mask.dfy` (module `ProtoMask`): the Internet checksum of section 4.1 of RFC 1071 as the header mask
- `net_utils.dfy` (module `NetUtils`): big-endian integer reads and writes
- `protocol.dfy` (module `Protocol`): the frame header, command packing, and the authentication and confirm payloads
- `reusable_buffer.dfy` (module `ReusableBuffer`): the offset/length cursor buffer
- `ring_buffer.dfy` (module `ParallelRing`): the C++ single-producer ring buffer
- `object_pool.dfy` (module `ObjectPools`): the stack object pool
- `safe_hash_map.dfy` (module `SafeHashMaps`): the hash map, without its fences and locks
- `safe_random.dfy` (module `SafeRandoms`): the xorshift64 step
- `basic_async_session.dfy` (module `AsyncSessions`): the session lifecycle, frame reassembly and keep-alive
- `buffer_read.dfy` (module `BufferRead`): the synchronous frame reader
- `session_logic.dfy` (module `SessionLogic`): the server uid hash, RC4 key setup and session types
- `default_session_logic.dfy` (module `DefaultSessionLogics`): the handshake logic
- `client_session_logic.dfy` (module `ClientSessionLogics`): the client logic
- `server_session_logic.dfy` (module `ServerSessionLogics`): the server logic
- `proxy_manager.dfy` (module `ProxyManagers`): authentication, the routing tables, kicks and the sweep
- `active_server_session_logic.dfy` (module `ActiveServerSessionLogics`): the test client's outbound logic
- `active_server_session_mgr.dfy` (module `ActiveServerSessionMgrs`): the test client's send, broadcast and record reader
- `inner_session_logic.dfy` (module `InnerSessionLogics`): the test client's inner logic
- `inner_pair_session.dfy` (module `InnerPairSessions`): the test client's inner pair reader
- `wlog.dfy` (module `WLogs`): the logger's mask, path, block lists and trace guards
- `socket_client.dfy` (module `SocketClients`): the C# framing, state machine and body splitter
- `cs_ring_buffer.dfy` (module `CsRingBuffers`): the C# ring buffer
- `block_malloc.dfy` (module `BlockMallocs`): the C# size-class block pool
- `network_manager.dfy` (module `NetworkManagers`): the C# send queue and batching

Code that changes state in place is modelled as classes whose methods state their new state. Loops are methods with loop invariants, each proved against a specification function. Encoders and decoders are functions with round-trip lemmas.
Sockets, timers, threads and clocks are parameters or recorded effects: a session logic returns the sends and kicks it would make, and a completion handler is a method taking the bytes and error flag it would receive.
Several guards in the source do not do what the surrounding code evidently expects.
Each is modelled as written, and a corrected definition beside it carries the intended property; see "Findings".
The model follows the code. Each row's intended behaviour is read from the source itself: the function's name (`erase`, `complex_operation`, `kick_server_peer`), the comment beside it (the `> should be >=` note in `pick_a_entire_msg`, the tcmalloc table above `sizePoolIndexMaybe`), or what its callers and the matching encoder or decoder expect.

Byte and integer widths are explicit: `byte`, `u16`, `u32` and `u64` are subset types, and wrap-around is written out where the source relies on it. A little-endian host is assumed wherever the source asks the host's byte order.

## Model

| member | source | states |
|---|---|---|
| ProtoMask.WordSum | AsioNet/AsioNet/proto_mask.hpp:24-41 | the sum of the 16-bit words of the data, first byte of a pair high, a trailing odd byte high; bounded by 0xFFFF per byte |
| ProtoMask.Fold | AsioNet/AsioNet/proto_mask.hpp:42-47 | the end-around carry steps give a 16-bit value congruent to the input modulo 0xFFFF, zero only for zero |
| ProtoMask.FoldStep | AsioNet/AsioNet/proto_mask.hpp:43 | one carry step keeps the value modulo 0xFFFF |
| ProtoMask.MaskOff | AsioNet/AsioNet/proto_mask.hpp:17-49 | what mask_off_32 returns always fits in 16 bits |
| ProtoMask.MaskOff32 | AsioNet/AsioNet/proto_mask.hpp:17-49 | the loop over byte pairs with 32-bit wrap-around, the odd tail byte and the carry folds compute MaskOff |
| ProtoMask.GetMask | AsioNet/AsioNet/proto_mask.hpp:9-15 | the mask is 0 exactly when the folded sum over head then data is 0xFFFF |
| ProtoMask.WordSumAppend | AsioNet/AsioNet/proto_mask.hpp:24-35 | word sums add over a split at an even position, so head and payload are summed independently |
| ProtoMask.WordSumOddTail | AsioNet/AsioNet/proto_mask.hpp:36-41 | a trailing odd byte counts as a high byte with a zero low byte |
| ProtoMask.MaskCancels | AsioNet/AsioNet/proto_mask.hpp:9-15 | a header whose words exceed those of the zero-mask header by exactly the mask computed over it and the payload re-checks to mask 0, for payloads up to 0xFFFF bytes |
| ProtoMask.GetMaskNoWrap | AsioNet/AsioNet/proto_mask.hpp:9-48 | without 32-bit overflow get_mask is 0xFFFF minus two plain folds of the word sums |
| ProtoMask.MaskOffNoWrap | AsioNet/AsioNet/proto_mask.hpp:17-49 | without 32-bit overflow mask_off_32 is the fold of acc plus the word sum |
| ProtoMask.FoldComplement | AsioNet/AsioNet/proto_mask.hpp:9-48 | folding a sum that includes the complement of its own fold gives 0xFFFF, the arithmetic behind the zero re-check |
| NetUtils.WriteUint16 | AsioNet/AsioNet/NetUtils.hpp:38-42 | the two bytes at `at` become val high byte first; every other byte of the block is unchanged |
| NetUtils.ReadUint16 | AsioNet/AsioNet/NetUtils.hpp:44-49 | the result is the one 16-bit value whose high-byte-first encoding is the two bytes at `at` |
| NetUtils.WriteUint32 | AsioNet/AsioNet/NetUtils.hpp:51-57 | the four bytes at `at` become val most significant byte first; the rest of the block is unchanged |
| NetUtils.ReadUint32 | AsioNet/AsioNet/NetUtils.hpp:59-64 | the result is the one 32-bit value whose most-significant-first encoding is the four bytes at `at` |
| NetUtils.WriteUint64 | AsioNet/AsioNet/NetUtils.hpp:66-76 | the eight bytes at `at` become val most significant byte first; the rest of the block is unchanged |
| NetUtils.ReadUint64 | AsioNet/AsioNet/NetUtils.hpp:78-90 | the eight bytes read most significant first, as an int64_t: the result is congruent to the unsigned value modulo 2^64 |
| NetUtils.AsSigned64 | AsioNet/AsioNet/NetUtils.hpp:80-81 | the uint64-to-int64 conversion keeps the value modulo 2^64 and is negative exactly when the top bit is set |
| NetUtils.RoundTrip16And32 | AsioNet/AsioNet/NetUtils.hpp:38-64 | read_uint16 after write_uint16, and read_uint32 after write_uint32, give back every value |
| NetUtils.RoundTrip64 | AsioNet/AsioNet/NetUtils.hpp:66-90 | read_uint64 after write_uint64 gives v for v < 2^63 and v - 2^64 above |
| NetUtils.ReadBeOfBeBytes | AsioNet/AsioNet/NetUtils.hpp:37-90 | decoding most-significant-first bytes gives back every value that fits in them |
| NetUtils.BeBytesOfReadBe | AsioNet/AsioNet/NetUtils.hpp:37-90 | encoding the decoded value gives back every byte string |
| NetUtils.ReadLeOfLeBytes | AsioNet/AsioNet/NetUtils.hpp:9 | on the little-endian host the code assumes, the in-memory bytes of a value decode back to it |
| NetUtils.LeBytesOfReadLe | AsioNet/AsioNet/NetUtils.hpp:9 | the in-memory bytes of the value read from a byte string are that byte string |
| Protocol.HeadBytes | AsioNet/AsioNet/protocol.hpp:24-35 | the packed MSVC header is 11 bytes, frame key first, each wider field in host (little-endian) order |
| Protocol.ParseHead | AsioNet/AsioNet/protocol.hpp:136-143 | unpack_head gives the header whose packed bytes are the first 11 bytes of the block |
| Protocol.ParseHeadBytes | AsioNet/AsioNet/protocol.hpp:136-148 | copying a header out to bytes and back in gives the same header, whatever follows it |
| Protocol.GetCmd | AsioNet/AsioNet/protocol.hpp:37-42 | get_cmd is the low 15 bits of the command word, so below 0x8000 |
| Protocol.GetAHead | AsioNet/AsioNet/protocol.hpp:51-64 | get_a_head keeps fk, len, mask and seq, puts cmd modulo 2^15 in the low bits and the compressed flag in the top bit |
| Protocol.CommandsFitFifteenBits | AsioNet/AsioNet/protocol.hpp:12-22 | every command from LCriticalSI to Kick survives get_a_head then get_cmd; the sentinel RCriticalSI (0xFFFF) does not |
| Protocol.Sealed | AsioNet/AsioNet/default_session_logic.cpp:34 | sealing changes only the mask field of a header |
| Protocol.HeadWordSumMask | AsioNet/AsioNet/protocol.hpp:30-35 | the mask field adds to the header's word sum exactly once, although it straddles two 16-bit words |
| Protocol.SealedFrameVerifies | AsioNet/AsioNet/default_session_logic.cpp:61-62 | a header sealed over its payload (at most 0xFFFF bytes) re-checks to mask 0, the check every unwrap makes |
| Protocol.FrameBytes | AsioNet/AsioNet/protocol.hpp:106-107 | a frame on the wire is the 11 header bytes followed by the payload |
| Protocol.Pack | AsioNet/AsioNet/protocol.hpp:101-108 | pack writes a header with key 0x2e, zero mask, uncompressed, then the message; the returned length is length + 11 cut to 16 bits; bytes past the frame are unchanged |
| Protocol.PackMulti | AsioNet/AsioNet/protocol.hpp:110-124 | the pieces are copied side by side after the header; header and returned length are the total cut to 16 bits; bytes past the frame are unchanged |
| Protocol.CopyPieces | AsioNet/AsioNet/protocol.hpp:115-119 | the pieces land side by side after the header, the running total ends at the sum of the lengths, and bytes before and after are unchanged |
| Protocol.Unpack | AsioNet/AsioNet/protocol.hpp:126-134 | unpack returns the header and the length - 11 payload bytes that make up the first `length` bytes |
| Protocol.PackUnpack | AsioNet/AsioNet/protocol.hpp:101-134 | unpack with the length pack reports gives back the header and the message |
| Protocol.AaaRequestBytes | AsioNet/AsioNet/protocol.hpp:168-178 | the request body is platform_len + 8 bytes long |
| Protocol.PackAaaRequest | AsioNet/AsioNet/protocol.hpp:168-178 | pack writes area and server id big-endian, the link type, the platform with its NUL and the platform length; the returned length is platform_len + 8 |
| Protocol.UnpackAaaRequest | AsioNet/AsioNet/protocol.hpp:180-193 | unpack takes platform_len = length - 8 in 16-bit arithmetic and reads platform_len + 1 platform bytes; a read past the block is the None case |
| Protocol.AaaRequestRoundTrip | AsioNet/AsioNet/protocol.hpp:168-193 | a packed request unpacks, with the length pack reports, to the same area, server, link type, platform and platform length |
| Protocol.AaaResponseBytes | AsioNet/AsioNet/protocol.hpp:215-220 | the response pack writes key_len + 8 bytes |
| Protocol.PackAaaResponse | AsioNet/AsioNet/protocol.hpp:206-223 | pack writes ec, subtract, mod_vt, the key, the link number big-endian and the link type, and reports key_len + 10 |
| Protocol.UnpackAaaResponse | AsioNet/AsioNet/protocol.hpp:228-240 | unpack takes key_len = length - 11 in 16-bit arithmetic and reads the link number right after those key bytes; None is a read past the block |
| Protocol.AaaResponseRoundTripAsWritten | AsioNet/AsioNet/protocol.hpp:206-240 | a packed response unpacked with its reported length loses the last key byte; ec, subtract, mod_vt and the link number survive |
| Protocol.AaaResponseLengthIntended | AsioNet/AsioNet/protocol.hpp:222 | the reported length should be the bytes pack writes, key_len + 8 |
| Protocol.UnpackAaaResponseIntended | AsioNet/AsioNet/protocol.hpp:228-240 | the corrected unpack succeeds exactly when 8 <= length <= the block |
| Protocol.AaaResponseRoundTripIntended | AsioNet/AsioNet/protocol.hpp:206-240 | with the corrected length every field, the whole key and the link type round-trip |
| Protocol.PackConnectConfirm | AsioNet/AsioNet/protocol.hpp:250-256 | pack writes the address big-endian in four bytes and reports 4 |
| Protocol.ConnectConfirmRoundTrip | AsioNet/AsioNet/protocol.hpp:250-264 | unpack reads back the address pack wrote |
| ReusableBuffer.Buffer.constructor | AsioNet/AsioNet/reusabel_buffer.hpp:3-51 | a buffer of SIZE bytes handed out after reset has offset and length 0 and keeps its old bytes |
| ReusableBuffer.Buffer.Reset | AsioNet/AsioNet/reusabel_buffer.hpp:12-17 | reset zeroes offset and length and leaves the bytes alone |
| ReusableBuffer.Buffer.SetAt | AsioNet/AsioNet/reusabel_buffer.hpp:33-36 | writing element idx changes storage byte offset + idx and no other |
| ReusableBuffer.Buffer.Resize | AsioNet/AsioNet/reusabel_buffer.hpp:38-41 | resize sets the used length to s |
| SafeRandoms.NoZeroLeft13 | AsioNet/AsioNet/parallel_core/SafeRandom.hpp:42 | x ^ (x << 13) is zero only for x zero |
| SafeRandoms.NoZeroRight7 | AsioNet/AsioNet/parallel_core/SafeRandom.hpp:43 | x ^ (x >> 7) is zero only for x zero |
| SafeRandoms.NoZeroLeft17 | AsioNet/AsioNet/parallel_core/SafeRandom.hpp:44 | x ^ (x << 17) is zero only for x zero |
| SafeRandoms.ZeroStaysZero | AsioNet/AsioNet/parallel_core/SafeRandom.hpp:39-46 | one xorshift64 step gives zero exactly when the state was zero, so a non-zero seed never reaches zero |
| SafeRandoms.SafeRandom.constructor | AsioNet/AsioNet/parallel_core/SafeRandom.hpp:48-52 | seeding stores the origin as the state |
| SafeRandoms.SafeRandom.Next | AsioNet/AsioNet/parallel_core/SafeRandom.hpp:26-30 | next returns and stores the xorshift64 step of the old state, zero exactly when the old state was zero |
| ObjectPools.ObjectPool.constructor | AsioNet/AsioNet/parallel_core/ObjectPool.h:37-41 | a new pool has count 0, no pooled objects and none lent out |
| ObjectPools.ObjectPool.CountActive | AsioNet/AsioNet/parallel_core/ObjectPool.h:55-59 | the active count is the objects get has handed out and release has not taken back, less one for every clear so far |
| ObjectPools.ObjectPool.Get | AsioNet/AsioNet/parallel_core/ObjectPool.h:67-81 | with an empty pool get counts and returns a new object; otherwise it pops the last released object; either way one more object is lent out and active |
| ObjectPools.ObjectPool.Release | AsioNet/AsioNet/parallel_core/ObjectPool.h:83-90 | release pushes the object and leaves the counter, so one fewer object is lent out and active |
| ObjectPools.ObjectPool.Clear | AsioNet/AsioNet/parallel_core/ObjectPool.h:92-113 | clear empties the pool and lowers the counter by the pooled objects plus one, so the active count falls one below the objects lent out |
| ObjectPools.ReleaseThenGet | AsioNet/AsioNet/parallel_core/ObjectPool.h:67-90 | a release then a get returns the same object and restores pool and counter |
| SafeHashMaps.SafeHashMap.constructor | AsioNet/AsioNet/parallel_core/SafeHashMap.hpp:140-142 | a new table is empty |
| SafeHashMaps.SafeHashMap.ContainsKey | AsioNet/AsioNet/parallel_core/SafeHashMap.hpp:16-19 | contains_key is true exactly when the key has an entry |
| SafeHashMaps.SafeHashMap.Size | AsioNet/AsioNet/parallel_core/SafeHashMap.hpp:28-31 | size is zero exactly for the empty table |
| SafeHashMaps.SafeHashMap.Empty | AsioNet/AsioNet/parallel_core/SafeHashMap.hpp:33-36 | empty holds exactly when size is zero, that is when no key has an entry |
| SafeHashMaps.SafeHashMap.Insert | AsioNet/AsioNet/parallel_core/SafeHashMap.hpp:38-52 | insert adds the pair and reports true exactly when the key was absent; otherwise the table is unchanged |
| SafeHashMaps.SafeHashMap.InsertOrSet | AsioNet/AsioNet/parallel_core/SafeHashMap.hpp:54-71 | insert_or_set adds the pair when the key is absent and never overwrites an existing value |
| SafeHashMaps.SafeHashMap.Erase | AsioNet/AsioNet/parallel_core/SafeHashMap.hpp:91-105 | erase, whose guard is inverted, always returns false and never removes anything |
| SafeHashMaps.SafeHashMap.EraseIntended | AsioNet/AsioNet/parallel_core/SafeHashMap.hpp:91-105 | the corrected erase removes the key and reports whether it was there |
| SafeHashMaps.SafeHashMap.TryGet | AsioNet/AsioNet/parallel_core/SafeHashMap.hpp:107-129 | try_get succeeds exactly when the key is present and yields its value; otherwise ref_val is left as it was |
| SafeHashMaps.SafeHashMap.ComplexOperation | AsioNet/AsioNet/parallel_core/SafeHashMap.hpp:131-138 | complex_operation never calls the handler and leaves the table unchanged |
| SafeHashMaps.SafeHashMap.ComplexOperationIntended | AsioNet/AsioNet/parallel_core/SafeHashMap.hpp:131-138 | the handler called as intended sees the table by value and cannot change it |
| ParallelRing.Slot | AsioNet/AsioNet/parallel_core/RingBuffer.h:93 | the slot (base + i) % capacity lies inside the ring |
| ParallelRing.SlotAfterSlot | AsioNet/AsioNet/parallel_core/RingBuffer.h:98-99 | moving an index by k then by i lands where moving it by k + i does |
| ParallelRing.SlotInjective | AsioNet/AsioNet/parallel_core/RingBuffer.h:114-117 | fewer than capacity steps from one index reach distinct slots, so a write of fewer than capacity bytes never overwrites itself |
| ParallelRing.CountIsDistance | AsioNet/AsioNet/parallel_core/RingBuffer.h:66-70 | count's formula is a distance below the capacity that takes the read index to the write index |
| ParallelRing.RingBuffer.constructor | AsioNet/AsioNet/parallel_core/RingBuffer.h:51-58 | a new ring has both indices at zero and stores nothing |
| ParallelRing.RingBuffer.Count | AsioNet/AsioNet/parallel_core/RingBuffer.h:66-70 | count is below the capacity and is the number of steps from the read index to the write index |
| ParallelRing.RingBuffer.CountFrom | AsioNet/AsioNet/parallel_core/RingBuffer.h:66-70 | no other distance below the capacity joins the two indices |
| ParallelRing.RingBuffer.Full | AsioNet/AsioNet/parallel_core/RingBuffer.h:72-76 | full(add) holds exactly when fewer than add + 1 free slots remain |
| ParallelRing.RingBuffer.Empty | AsioNet/AsioNet/parallel_core/RingBuffer.h:78-82 | with size_t arithmetic empty(del) holds exactly when count equals del |
| ParallelRing.RingBuffer.Contents | AsioNet/AsioNet/parallel_core/RingBuffer.h:86-123 | the queued bytes, oldest first, number count |
| ParallelRing.RingBuffer.TryRead | AsioNet/AsioNet/parallel_core/RingBuffer.h:85-103 | tryRead fails exactly on an empty ring; otherwise it copies length bytes from the read index (the first length queued bytes when that many are queued) and drops them unless withoutShift |
| ParallelRing.RingBuffer.AdvanceRead | AsioNet/AsioNet/parallel_core/RingBuffer.h:96-100 | moving the read index over k queued bytes leaves the remaining bytes in order |
| ParallelRing.RingBuffer.TryWrite | AsioNet/AsioNet/parallel_core/RingBuffer.h:105-123 | tryWrite succeeds exactly when count + length stays below the capacity, and then appends the first length bytes of data; on refusal nothing changes |
| ParallelRing.RingBuffer.WriteSlotFresh | AsioNet/AsioNet/parallel_core/RingBuffer.h:114-117 | every slot the write loop stores to is neither a queued byte nor a slot already written in the same call |
| ParallelRing.RingBuffer.AfterWrite | AsioNet/AsioNet/parallel_core/RingBuffer.h:114-119 | after the copy loop and the index move the queue is the old bytes followed by the new |
| ParallelRing.RingBuffer.TryReadShift | AsioNet/AsioNet/parallel_core/RingBuffer.h:182-191 | tryReadShift refuses exactly when length bytes are queued; otherwise it moves the read index by length, dropping length bytes when more are queued |
| ParallelRing.RingBuffer.TryWriteShift | AsioNet/AsioNet/parallel_core/RingBuffer.h:193-202 | tryWriteShit succeeds exactly when count + length stays below the capacity and then grows the queue by length bytes, keeping the queued prefix |
| ParallelRing.RingBuffer.Clear | AsioNet/AsioNet/parallel_core/RingBuffer.h:204-209 | clear puts both indices at zero, so nothing is queued |
| ParallelRing.ReadShiftPastEndAsWritten | AsioNet/AsioNet/parallel_core/RingBuffer.h:78-82 | with 2 bytes queued in a 16-byte ring, skipping 5 succeeds and leaves 13 phantom bytes queued |
| ParallelRing.TryReadShiftIntended | AsioNet/AsioNet/parallel_core/RingBuffer.h:182-191 | the corrected skip succeeds exactly when at least length bytes are queued and then drops exactly those bytes |
| ParallelRing.SliceAfter | AsioNet/AsioNet/parallel_core/RingBuffer.h:91-99 | after the read index moves k slots, the next n readable bytes are the tail of the k + n bytes read before |
| ParallelRing.CountZeroIff | AsioNet/AsioNet/parallel_core/RingBuffer.h:66-82 | the ring is drained exactly when the two indices meet |
| ParallelRing.SkipMissesWrite | AsioNet/AsioNet/parallel_core/RingBuffer.h:182-191 | skipping any number of slots other than the queued count never lands on the write index |
| ParallelRing.SliceIsContents | AsioNet/AsioNet/parallel_core/RingBuffer.h:91-94 | the n bytes from the read index are the first n queued bytes whenever n are queued |
| AsyncSessions.AnnouncedLen | AsioNet/AsioNet/basic_async_session.cpp:332-334 | the length a buffered frame announces is its header's len field |
| AsyncSessions.FrameEnd | AsioNet/AsioNet/basic_async_session.cpp:338-343 | already_read after a complete frame lies between 11 and the buffered length |
| AsyncSessions.FirstFrame | AsioNet/AsioNet/basic_async_session.cpp:330-343 | the frame picked from the front is exactly the first already_read buffered bytes |
| AsyncSessions.PickAllConserves | AsioNet/AsioNet/basic_async_session.cpp:325-404 | a batch of picks loses and reorders nothing: the consumed frames then the rest are the buffered bytes |
| AsyncSessions.PickAllShrinks | AsioNet/AsioNet/basic_async_session.cpp:379-387 | a batch never grows the buffer |
| AsyncSessions.PickAllStops | AsioNet/AsioNet/basic_async_session.cpp:325-404 | a batch stops only at an incomplete frame or a refused copy of the front frame, and each consumed frame was dropped by unwrap or stored by the logic |
| AsyncSessions.PickAllStalls | AsioNet/AsioNet/basic_async_session.cpp:325-404 | a batch is stalled exactly when a complete frame is left at the front, and the logic refused to copy that frame, the one after the frames consumed |
| AsyncSessions.PickAllConsumesAccepted | AsioNet/AsioNet/basic_async_session.cpp:325-404 | no frame a batch consumed had its copy refused by the logic |
| AsyncSessions.JoinedStep | AsioNet/AsioNet/basic_async_session.cpp:400-401 | frames consumed by successive picks accumulate in order |
| AsyncSessions.HeadKept | AsioNet/AsioNet/basic_async_session.cpp:110-121 | bytes appended by a read do not change the header already buffered |
| AsyncSessions.OversizedFrameNeverCompletesAsWritten | AsioNet/AsioNet/basic_async_session.cpp:110 | a header announcing more payload than a 64 KiB receive buffer leaves room for never completes: every batch consumes nothing |
| AsyncSessions.EveryFrameCompletesIntended | AsioNet/AsioNet/basic_async_session.cpp:325-393 | with room for header plus 0xFFFF bytes every frame fits, and once it has arrived the batch hands exactly that frame to the logic |
| AsyncSessions.AfterClose | AsioNet/AsioNet/basic_async_session.cpp:207-242 | close does nothing in CLOSE_DONE; otherwise it cancels both timers, and with an open socket a graceful close moves to TO_CLOSE and a hard one to CLOSE_DONE; buffers and sends are untouched and the session invariant is kept |
| AsyncSessions.AfterRecvLoop | AsioNet/AsioNet/basic_async_session.cpp:95-126 | only in CONNECTING is a receive buffer taken when none is held |
| AsyncSessions.AfterConnect | AsioNet/AsioNet/basic_async_session.cpp:61-78 | async_connect moves to WAIT_CONNECT only from INIT with a logic attached |
| AsyncSessions.AfterConnectCompleted | AsioNet/AsioNet/basic_async_session.cpp:79-92 | a failed connect closes hard; a successful one enters CONNECTING and starts reading |
| AsyncSessions.AfterPassiveConnect | AsioNet/AsioNet/basic_async_session.cpp:249-254 | an accepted socket enters CONNECTING and starts reading |
| AsyncSessions.AfterSend | AsioNet/AsioNet/basic_async_session.cpp:128-153 | only in CONNECTING does async_send record the send time and write the wrapped buffer; otherwise nothing changes |
| AsyncSessions.AfterSendMulti | AsioNet/AsioNet/basic_async_session.cpp:155-199 | only in CONNECTING are the head bytes then the message bytes written, unwrapped, after a null one is skipped |
| AsyncSessions.AfterSendCompleted | AsioNet/AsioNet/basic_async_session.cpp:142-152 | a write error closes hard; success changes nothing |
| AsyncSessions.Rearm | AsioNet/AsioNet/basic_async_session.cpp:363-364 | expires_from_now then async_wait leaves one live wait and turns a live one into an aborted one |
| AsyncSessions.CancelWaits | AsioNet/AsioNet/basic_async_session.cpp:315-323 | cancel leaves no live wait and turns a live one into an aborted one |
| AsyncSessions.AfterPick | AsioNet/AsioNet/basic_async_session.cpp:325-404 | pick_entire_msgs leaves what the batch leaves and does not touch state, socket or sends; a stalled batch re-arms the retry timer, so a wait still live becomes an aborted one |
| AsyncSessions.AfterRecv | AsioNet/AsioNet/basic_async_session.cpp:111-124 | a read completion records the receive time; an error closes hard yet the bytes are still appended and picked; without an error it is exactly a batch over the old bytes plus the new ones |
| AsyncSessions.AfterRetryTimer | AsioNet/AsioNet/basic_async_session.cpp:362-372 | aborted waits complete first, each closing hard; the live wait's completion picks frames again and leaves no wait pending |
| AsyncSessions.KickWithPendingRetryClosesHard | AsioNet/AsioNet/basic_async_session.cpp:244-247 | a kick during a pending retry moves to TO_CLOSE, and the cancelled retry then closes hard |
| AsyncSessions.RecvDuringRetryClosesHard | AsioNet/AsioNet/basic_async_session.cpp:111-124 | bytes read while a retry wait is live that stall the batch again re-arm the timer over it, and the aborted wait's completion closes the session hard |
| AsyncSessions.StallDuringRetryClosesHard | AsioNet/AsioNet/basic_async_session.cpp:360-373 | a stall while a retry wait is live adds one aborted wait beside the new live one, and the next completion closes hard |
| AsyncSessions.StallAfterKickStillClosesHard | AsioNet/AsioNet/basic_async_session.cpp:217-373 | a stall after a kick keeps the cancelled retry queued beside the new wait, so the next completion still closes hard |
| AsyncSessions.CloseIdempotent | AsioNet/AsioNet/basic_async_session.cpp:207-247 | repeating a close changes nothing; a hard close after a kick finishes the session |
| AsyncSessions.ClosedIsFinal | AsioNet/AsioNet/basic_async_session.cpp:61-254 | CLOSE_DONE is left by no event: close, connect, failed connect completion, send, send completion, keep-alive, read completion and retry all keep it |
| AsyncSessions.TickStep | AsioNet/AsioNet/basic_async_session.h:106-112 | the counter after a tick is below precision / tick |
| AsyncSessions.TickCycles | AsioNet/AsioNet/basic_async_session.h:106-112 | after k more ticks the counter is (count + k) mod (precision / tick), so exactly one tick in every precision / tick is effective |
| AsyncSessions.TickCyclesModulo | AsioNet/AsioNet/basic_async_session.h:106-112 | from a counter below precision / tick, k ticks leave (count + k) mod (precision / tick) |
| AsyncSessions.AfterTickAlive | AsioNet/AsioNet/basic_async_session.cpp:278-303 | tick_alive does nothing outside CONNECTING and keeps the session invariant |
| AsyncSessions.KeepAliveDecision | AsioNet/AsioNet/basic_async_session.cpp:278-303 | a peer silent past the timeout is kicked and sent nothing; one heard in time gets an empty frame exactly when this side was quiet longer than the timeout less 2000 ms; a second tick at the same instant sends nothing more |
| AsyncSessions.AfterFixedTick | AsioNet/AsioNet/basic_async_session.cpp:267-276 | fixed_tick advances the counter and re-arms the tick timer |
| AsyncSessions.AfterStartTick | AsioNet/AsioNet/basic_async_session.cpp:256-265 | start_tick records interval and timeout and arms the tick |
| AsyncSessions.AfterTickTimer | AsioNet/AsioNet/basic_async_session.cpp:274-275 | the tick completion is bound without the error code, so even a cancelled wait re-arms the timer |
| AsyncSessions.TickSurvivesCloseAsWritten | AsioNet/AsioNet/basic_async_session.cpp:217-323 | close cancels the tick, yet its completion arms it again |
| AsyncSessions.AfterTickTimerIntended | AsioNet/AsioNet/basic_async_session.cpp:274-275 | with the cancellation honoured, a cancelled wait ends the tick |
| AsyncSessions.TickStopsAfterCloseIntended | AsioNet/AsioNet/basic_async_session.cpp:207-276 | with the cancellation honoured, a close stops the tick for good and leaves the state alone |
| AsyncSessions.BasicAsyncSession.constructor | AsioNet/AsioNet/basic_async_session.cpp:6-27 | a new session is INIT with no logic, both idle clocks at now and the uuid from clock() |
| AsyncSessions.BasicAsyncSession.ModifySessionLogic | AsioNet/AsioNet/basic_async_session.h:50-54 | the new logic replaces the old and nothing else changes |
| AsyncSessions.BasicAsyncSession.Close | AsioNet/AsioNet/basic_async_session.cpp:207-242 | the session becomes AfterClose of its old view; it is closed afterwards exactly when it was closed or a hard close hit an open socket |
| AsyncSessions.BasicAsyncSession.Kick | AsioNet/AsioNet/basic_async_session.cpp:244-247 | kick is a graceful close and never makes the session closed |
| AsyncSessions.BasicAsyncSession.AsyncRecvLoop | AsioNet/AsioNet/basic_async_session.cpp:95-110 | the session becomes AfterRecvLoop of its old view |
| AsyncSessions.BasicAsyncSession.AsyncConnect | AsioNet/AsioNet/basic_async_session.cpp:61-78 | the session becomes AfterConnect of its old view |
| AsyncSessions.BasicAsyncSession.ConnectCompleted | AsioNet/AsioNet/basic_async_session.cpp:79-92 | the session becomes AfterConnectCompleted of its old view |
| AsyncSessions.BasicAsyncSession.PassivelyConnectSucc | AsioNet/AsioNet/basic_async_session.cpp:249-254 | the session becomes AfterPassiveConnect of its old view |
| AsyncSessions.BasicAsyncSession.AsyncSend | AsioNet/AsioNet/basic_async_session.cpp:128-142 | the session becomes AfterSend of its old view |
| AsyncSessions.BasicAsyncSession.AsyncSendMulti | AsioNet/AsioNet/basic_async_session.cpp:155-188 | the session becomes AfterSendMulti of its old view |
| AsyncSessions.BasicAsyncSession.SendCompleted | AsioNet/AsioNet/basic_async_session.cpp:142-152 | the session becomes AfterSendCompleted of its old view |
| AsyncSessions.BasicAsyncSession.PickAnEntireMsg | AsioNet/AsioNet/basic_async_session.cpp:325-393 | nothing is consumed without a complete frame or when the copy is refused, which re-arms the retry timer and aborts a live wait; otherwise header plus len bytes are consumed, the rest moved to the front, and an emptied buffer released |
| AsyncSessions.BasicAsyncSession.PickLoop | AsioNet/AsioNet/basic_async_session.cpp:400-401 | the loop consumes and hands over exactly what PickAll does, and re-arms the retry timer once when the batch stalls |
| AsyncSessions.BasicAsyncSession.PickEntireMsgs | AsioNet/AsioNet/basic_async_session.cpp:395-404 | the session becomes AfterPick of its old view and the handled frames are PickAll's |
| AsyncSessions.BasicAsyncSession.RecvCompleted | AsioNet/AsioNet/basic_async_session.cpp:111-124 | the session becomes AfterRecv of its old view, handling PickAll's frames of the buffered plus the read bytes |
| AsyncSessions.BasicAsyncSession.RetryTimerFired | AsioNet/AsioNet/basic_async_session.cpp:363-372 | the session becomes AfterRetryTimer of its old view; an aborted completion hands no frame over |
| AsyncSessions.BasicAsyncSession.TickFrameEffective | AsioNet/AsioNet/basic_async_session.h:106-112 | the counter takes one TickStep and the tick is effective exactly when it reaches zero |
| AsyncSessions.BasicAsyncSession.TickAlive | AsioNet/AsioNet/basic_async_session.cpp:278-303 | the session becomes AfterTickAlive of its old view |
| AsyncSessions.BasicAsyncSession.FixedTick | AsioNet/AsioNet/basic_async_session.cpp:267-276 | the session becomes AfterFixedTick of its old view |
| AsyncSessions.BasicAsyncSession.StartTick | AsioNet/AsioNet/basic_async_session.cpp:256-265 | the session becomes AfterStartTick of its old view |
| AsyncSessions.BasicAsyncSession.TickTimerFired | AsioNet/AsioNet/basic_async_session.cpp:274-275 | the session becomes AfterTickTimer of its old view |
| BufferRead.Payloads | AsioNet/AsioNet/buffer_read.hpp:42 | the callback receives each handed-out frame's payload, in order |
| BufferRead.ExtractConserves | AsioNet/AsioNet/buffer_read.hpp:31-49 | a drain loses and reorders nothing, and what it leaves holds no complete frame except a lone 11-byte empty frame under the strict test |
| BufferRead.ExtractJoins | AsioNet/AsioNet/buffer_read.hpp:31-49 | the bytes of the frames handed out, followed by the bytes left, are the buffered bytes |
| BufferRead.ExtractLeavesPartial | AsioNet/AsioNet/buffer_read.hpp:31-49 | what a drain leaves holds no complete frame, except a lone 11-byte frame with an empty payload under the strict test |
| BufferRead.LoneEmptyFrameHeldAsWritten | AsioNet/AsioNet/buffer_read.hpp:31 | as written a buffer holding one empty frame is left as it is |
| BufferRead.LoneEmptyFrameDeliveredIntended | AsioNet/AsioNet/buffer_read.hpp:31 | with >= the same buffer yields the frame and is left empty |
| BufferRead.StrictDelaysOnlyLoneEmptyFrame | AsioNet/AsioNet/buffer_read.hpp:31-49 | the two tests differ only when the strict loop stops before a lone empty frame, which the corrected loop also delivers |
| BufferRead.MoveToFront | AsioNet/AsioNet/buffer_read.hpp:44-45 | memmove puts the count bytes from `from` at the start of the array |
| BufferRead.DrainStep | AsioNet/AsioNet/buffer_read.hpp:40-48 | each pass moves one frame from the buffer to the handed-out frames |
| BufferRead.Drain | AsioNet/AsioNet/buffer_read.hpp:31-49 | the loop hands out Extract's frames and leaves its remainder at the front of the array |
| BufferRead.SyncReadFromSocket | AsioNet/AsioNet/buffer_read.hpp:19-55 | nothing happens when nothing is available or the read throws; otherwise the read bytes are appended and the strict loop drains them |
| BufferRead.SyncReadFromSocketIntended | AsioNet/AsioNet/buffer_read.hpp:19-55 | the same call with the loop also running at exactly 11 bytes |
| SessionLogic.SessionTypeOrdering | AsioNet/AsioNet/session_logic.h:18-33 | CLIENT_PROXY is 1, a single-session kind; the proxy, active and pair kinds all lie above MULTI_SESSION_BEGIN |
| SessionLogic.SignedChar | AsioNet/AsioNet/session_logic.h:78 | a platform character promotes as MSVC's signed char: between -128 and 127 and equal to the byte modulo 256 |
| SessionLogic.CStrLen | AsioNet/AsioNet/session_logic.h:76 | the loop stops at the first NUL: every earlier character is non-zero |
| SessionLogic.StrHash | AsioNet/AsioNet/session_logic.h:74-79 | the hash of an empty platform is 0 |
| SessionLogic.ServerUid | AsioNet/AsioNet/session_logic.h:81 | the uid holds the area in bits 48-63, the server id in bits 32-47 and the hash in bits 0-31 |
| SessionLogic.CalServerUid | AsioNet/AsioNet/session_logic.h:72-82 | cal_server_uid's loop computes the as-written hash of the platform and packs it with area and server id |
| SessionLogic.CStrLenNoNul | AsioNet/AsioNet/session_logic.h:76 | a platform without NUL is hashed over its full length |
| SessionLogic.StrHashIgnoresLaterCharacters | AsioNet/AsioNet/session_logic.h:76-79 | as written, two platforms differing only in their last character get the same hash and the same server uid |
| SessionLogic.StrHashIntendedSeesLastCharacter | AsioNet/AsioNet/session_logic.h:76-79 | with each round adding the character at the loop index, changing the last character changes the hash |
| SessionLogic.Draw | AsioNet/AsioNet/session_logic.h:95 | rand % 255 + 1 lies in 1..255 |
| SessionLogic.Rc4From | AsioNet/AsioNet/session_logic.h:92-104 | twelve successive draws give mod_vt, the ten key bytes and subtract, each in 1..255 |
| SessionLogic.NewRc4Info | AsioNet/AsioNet/session_logic.h:92-104 | rc4_info() takes twelve steps of the shared generator and builds its material from them in order |
| SessionLogic.IterateZero | AsioNet/AsioNet/parallel_core/SafeRandom.hpp:39-46 | a generator at zero stays at zero however many draws are taken |
| SessionLogic.Rc4FromZero | AsioNet/AsioNet/session_logic.h:92-104 | from a zero generator state every draw is 1, so the rc4 material is all ones |
| SessionLogic.WrapHead | AsioNet/AsioNet/default_session_logic.cpp:60-62 | the header each wrap builds carries key 0x2e, the payload length, the command cut to 15 bits with its compressed flag and the sequence number, and its mask makes the frame check to 0 |
| SessionLogic.PrependHead | AsioNet/AsioNet/default_session_logic.cpp:60-66 | the header is copied to the start of the storage, offset drops by 11 and length grows by 11; when the payload started at 11 the buffer then holds exactly the frame |
| DefaultSessionLogics.ResponseOf | AsioNet/AsioNet/default_session_logic.cpp:141-149 | the packed response is key_len + 8 bytes, the error code first |
| DefaultSessionLogics.EchoAsWritten | AsioNet/AsioNet/default_session_logic.cpp:135-150 | the echo buffer has offset 11 and length key_len + 10, starting with the error code |
| DefaultSessionLogics.EchoReadBackAsWritten | AsioNet/AsioNet/default_session_logic.cpp:135-150 | the peer receives the response plus two stale bytes and, unpacking with that length, recovers all fields except the last key byte |
| DefaultSessionLogics.EchoIntended | AsioNet/AsioNet/default_session_logic.cpp:135-150 | with the length pack really writes, the echo sends exactly the packed response |
| DefaultSessionLogics.EchoReadBackIntended | AsioNet/AsioNet/default_session_logic.cpp:135-150 | with that length the peer recovers the whole key and the link type |
| DefaultSessionLogics.RequestedServer | AsioNet/AsioNet/default_session_logic.cpp:93 | the server uid a request names carries its area and server id |
| DefaultSessionLogics.Verdict | AsioNet/AsioNet/default_session_logic.cpp:108-120 | the manager is consulted only for an AuthenticationAAA command; any other command fails and leaves the target uid |
| DefaultSessionLogics.Authenticate | AsioNet/AsioNet/default_session_logic.cpp:90-170 | a gone session changes nothing; otherwise the state leaves BEFORE_VERIFY, is VERIFY_SUCC exactly on success, one echo is sent with the matching error code, only the failure echo kicks, and success needs AuthenticationAAA plus the manager's approval |
| DefaultSessionLogics.DefaultSessionLogic.constructor | AsioNet/AsioNet/default_session_logic.cpp:8-12 | a new logic starts at sequence 0, BEFORE_VERIFY, with rc4 material drawn from the shared generator |
| DefaultSessionLogics.DefaultSessionLogic.Reset | AsioNet/AsioNet/default_session_logic.h:49-58 | reset returns to BEFORE_VERIFY with target 0, sequence 0 and fresh rc4 material, keeping the server info |
| DefaultSessionLogics.DefaultSessionLogic.KickPeer | AsioNet/AsioNet/default_session_logic.h:41 | a default logic has no peer to kick |
| DefaultSessionLogics.DefaultSessionLogic.TryCopyToStorage | AsioNet/AsioNet/default_session_logic.cpp:69-72 | try_copy_to_storage always accepts |
| DefaultSessionLogics.DefaultSessionLogic.EchoAuthenticationRes | AsioNet/AsioNet/default_session_logic.cpp:135-170 | a gone session gets nothing; success sends the echo; failure sends it and then kicks |
| DefaultSessionLogics.DefaultSessionLogic.VerifyAuthentication | AsioNet/AsioNet/default_session_logic.cpp:90-133 | the request's server info is stored before the liveness test, then the attempt settles as Authenticate says |
| DefaultSessionLogics.DefaultSessionLogic.Unwrap | AsioNet/AsioNet/default_session_logic.cpp:23-52 | the sequence number is always advanced; only a frame with the expected sequence and a zero mask while BEFORE_VERIFY reaches verification; unwrap never delivers |
| DefaultSessionLogics.DefaultSessionLogic.Wrap | AsioNet/AsioNet/default_session_logic.cpp:54-67 | the frame is AuthenticationAAA with the current sequence number, not advanced, and its header is written before the payload |
| DefaultSessionLogics.DefaultSessionLogic.TransToServer | AsioNet/AsioNet/default_session_logic.cpp:74-80 | the new server logic inherits server info and sequence number |
| DefaultSessionLogics.DefaultSessionLogic.TransToClient | AsioNet/AsioNet/default_session_logic.cpp:82-88 | the new client logic inherits rc4 material, sequence number, server info and target |
| ClientSessionLogics.UnwrapSpec | AsioNet/AsioNet/client_session_logic.cpp:16-66 | a message is produced only for the expected sequence number and a zero mask; a plain checked frame always yields its decrypted payload; an empty frame yields nothing |
| ClientSessionLogics.WrapSpec | AsioNet/AsioNet/client_session_logic.cpp:68-118 | the message is left unframed exactly when it is over 64 bytes and the compressor throws or yields nothing |
| ClientSessionLogics.WrapSpecFrames | AsioNet/AsioNet/client_session_logic.cpp:68-118 | a framed message is a RoutingTransparent frame no longer than the message, flagged compressed exactly when the compressed form is sent, whose len and mask the receiver accepts |
| ClientSessionLogics.ChosenBody | AsioNet/AsioNet/client_session_logic.cpp:72-96 | the compressed form is used only when it is shorter, so the body never grows |
| ClientSessionLogics.WrapUnwrapRoundTrip | AsioNet/AsioNet/client_session_logic.cpp:16-118 | a wrapped message unwraps back to itself with the same key and the next sequence number, when decryption undoes encryption and decompression undoes compression |
| ClientSessionLogics.ForwardedAsWritten | AsioNet/AsioNet/client_session_logic.cpp:128-131 | the forwarded bytes keep the message's length: the uid then all but the last four message bytes |
| ClientSessionLogics.ForwardedIntended | AsioNet/AsioNet/client_session_logic.cpp:128-131 | the intended forward is four bytes longer: the uid, then the whole message |
| ClientSessionLogics.ForwardDropsTail | AsioNet/AsioNet/client_session_logic.cpp:128-131 | as written every forwarded message is the intended one cut four bytes short |
| ClientSessionLogics.PlainMessageLostAsWritten | AsioNet/AsioNet/client_session_logic.cpp:34-65 | an accepted non-empty plain message is reported as delivered although ret_block receives none of it |
| ClientSessionLogics.KickHeadAsWritten | AsioNet/AsioNet/client_session_logic.cpp:138-154 | the kick head buffer sends no bytes, its length being left at 0 |
| ClientSessionLogics.KickBody | AsioNet/AsioNet/client_session_logic.cpp:147-148 | the kick body buffer sends the four big-endian bytes of the uid |
| ClientSessionLogics.KickSendsBareUid | AsioNet/AsioNet/client_session_logic.cpp:136-157 | as written the server receives the four uid bytes with no header, fewer than a header's 11 |
| ClientSessionLogics.KickIntended | AsioNet/AsioNet/client_session_logic.cpp:136-157 | the intended kick is a 15-byte Kick frame of len 4 with a valid mask that carries the uid |
| ClientSessionLogics.OneWordFrame | AsioNet/AsioNet/protocol.hpp:101-108 | a frame of one big-endian word reads back its header and the word |
| ClientSessionLogics.ClientSessionLogic.InheritLogic | AsioNet/AsioNet/client_session_logic.cpp:159-165 | inherit_logic stores key, sequence number, server info and target |
| ClientSessionLogics.ClientSessionLogic.Unwrap | AsioNet/AsioNet/client_session_logic.cpp:16-66 | the sequence number always advances; the result agrees with UnwrapSpec; only a compressed frame writes ret_block; a plain accepted frame is decrypted in the receive buffer |
| ClientSessionLogics.ClientSessionLogic.UnwrapIntended | AsioNet/AsioNet/client_session_logic.cpp:16-66 | the corrected unwrap puts every accepted message in ret_block |
| ClientSessionLogics.ClientSessionLogic.Wrap | AsioNet/AsioNet/client_session_logic.cpp:68-118 | the buffer returned holds the frame WrapSpec describes at offset 0, or the untouched message when wrapping stops early |
| ClientSessionLogics.ClientSessionLogic.ChooseBody | AsioNet/AsioNet/client_session_logic.cpp:70-96 | wrapping stops exactly when a message over 64 bytes fails to compress; otherwise it goes on with the chosen body at offset 11 |
| ClientSessionLogics.ClientSessionLogic.Encrypt | AsioNet/AsioNet/client_session_logic.cpp:98-107 | the message bytes become their encryption and the bytes before them are kept |
| ClientSessionLogics.ClientSessionLogic.TryCopyToStorage | AsioNet/AsioNet/client_session_logic.cpp:120-134 | a gone session is refused untouched; otherwise the uid is written at byte PROTO_HEAD_SIZE (11), the offset moves back four bytes, the length stays and the buffer goes to the target server; for a message at CLIENT_PREFIX_SIZE the server gets the uid and the message without its last four bytes |
| ClientSessionLogics.ClientSessionLogic.TryCopyToStorageIntended | AsioNet/AsioNet/client_session_logic.cpp:120-134 | the corrected forward grows the length by four, so the server gets the uid and the whole message |
| ClientSessionLogics.ClientSessionLogic.KickPeer | AsioNet/AsioNet/client_session_logic.cpp:136-157 | with a live session one head-plus-body send goes to the target server; a gone session sends nothing |
| ServerSessionLogics.BroadcastTargets | AsioNet/AsioNet/server_session_logic.cpp:58-60 | the broadcast lists as many targets as its count says |
| ServerSessionLogics.BroadcastTargetsAreListed | AsioNet/AsioNet/server_session_logic.cpp:58-60 | target i is the big-endian u32 at offset 2 + 4 * i |
| ServerSessionLogics.FanOut | AsioNet/AsioNet/server_session_logic.cpp:58-69 | one send_to_client_multi per target, in list order, all sharing the head and message buffers |
| ServerSessionLogics.ServerSessionLogic.InheritLogic | AsioNet/AsioNet/server_session_logic.cpp:8-12 | inherit_logic stores server info and sequence number |
| ServerSessionLogics.ServerSessionLogic.GetServerId | AsioNet/AsioNet/server_session_logic.h:11 | the server id packs the stored area, server id and platform hash |
| ServerSessionLogics.ServerSessionLogic.Unwrap | AsioNet/AsioNet/server_session_logic.cpp:19-47 | the sequence number always advances; delivery happens exactly for the expected sequence, a zero mask and a non-empty frame, and copies the payload into ret_block; otherwise ret_block is untouched |
| ServerSessionLogics.ServerSessionLogic.TryCopyToStorage | AsioNet/AsioNet/server_session_logic.cpp:49-81 | it always returns true; a BroadCast fans out as BroadcastAsWritten; any other payload loses its leading uid and is sent to that client |
| ServerSessionLogics.ServerSessionLogic.FanOutBroadcast | AsioNet/AsioNet/server_session_logic.cpp:51-70 | the broadcast loop's sends are BroadcastAsWritten's |
| ServerSessionLogics.ServerSessionLogic.SendToTargets | AsioNet/AsioNet/server_session_logic.cpp:58-69 | one multi-send per listed target, in list order, each of the same freshly masked header and the same body |
| ServerSessionLogics.ServerSessionLogic.BroadcastBodyBuffer | AsioNet/AsioNet/server_session_logic.cpp:55-56 | the message buffer holds the message after the target list and keeps length 0 |
| ServerSessionLogics.ServerSessionLogic.BroadcastHeadBuffer | AsioNet/AsioNet/server_session_logic.cpp:62-66 | each head buffer holds the header of an empty message and keeps length 0 |
| ServerSessionLogics.ServerSessionLogic.Wrap | AsioNet/AsioNet/server_session_logic.cpp:83-94 | the frame is RoutingTransparent with the current sequence number and its header is written before the payload |
| ServerSessionLogics.ServerSessionLogic.KickPeer | AsioNet/AsioNet/server_session_logic.cpp:96-99 | kick_peer asks the manager to kick the server peers of this session's type |
| ServerSessionLogics.ServerSessionLogic.SendConfirmConnect | AsioNet/AsioNet/server_session_logic.cpp:101-124 | a live session sends the ConfirmAsWritten buffer with no head buffer; a gone one sends nothing |
| ServerSessionLogics.ConfirmLayout | AsioNet/AsioNet/server_session_logic.cpp:106-109 | after the ip and then the uid are written, the 8 bytes after the header are the uid then the ip, both big-endian |
| ServerSessionLogics.BroadcastHeadAsWritten | AsioNet/AsioNet/server_session_logic.cpp:62-66 | each broadcast head buffer sends nothing, holding a header for an empty message |
| ServerSessionLogics.BroadcastBodyAsWritten | AsioNet/AsioNet/server_session_logic.cpp:55-56 | the broadcast body buffer holds the message but sends nothing |
| ServerSessionLogics.BroadcastSendsNothing | AsioNet/AsioNet/server_session_logic.cpp:51-70 | as written, a broadcast puts no byte on any listed client's wire |
| ServerSessionLogics.BroadcastIntended | AsioNet/AsioNet/server_session_logic.cpp:51-70 | the intended broadcast sends each target a header with the message length and the message |
| ServerSessionLogics.BroadcastIntendedVerifies | AsioNet/AsioNet/server_session_logic.cpp:51-70 | every intended broadcast frame carries the message and passes the receiver's mask check |
| ServerSessionLogics.ConfirmAsWritten | AsioNet/AsioNet/server_session_logic.cpp:101-115 | the confirm buffer sends 19 bytes, a header then 8 bytes |
| ServerSessionLogics.ConfirmHeadAsWritten | AsioNet/AsioNet/server_session_logic.cpp:111-113 | the confirm header has len 19, command ConnectionConfirm and the current sequence number |
| ServerSessionLogics.ConfirmLengthAsWritten | AsioNet/AsioNet/server_session_logic.cpp:107-112 | as written the frame announces 19 payload bytes but only 8 follow its header |
| ServerSessionLogics.TwoWordFrame | AsioNet/AsioNet/protocol.hpp:101-108 | a frame of two big-endian words reads back its header and both words |
| ServerSessionLogics.ConfirmIntended | AsioNet/AsioNet/server_session_logic.cpp:101-124 | the intended confirm frame has len 8, a valid mask, and the uid and ip after the header |
| ProxyManagers.Move | AsioNet/AsioNet/proxy_manager.cpp:184-245 | a uid that is not unmanaged changes nothing; at most that uid joins the client (or server) table; a failing erase leaves the unmanaged table as it was, a working one removes the uid; the tables stay consistent |
| ProxyManagers.Promote | AsioNet/AsioNet/proxy_manager.cpp:198-206 | after the logic swap the uid is filed in the server (or client) table, only that key can be added, the unmanaged table is untouched and the tables stay consistent |
| ProxyManagers.PromotionKeepsUnmanagedEntry | AsioNet/AsioNet/proxy_manager.cpp:187-222 | as written a promoted default session stays in the unmanaged table while also filed as a server or client |
| ProxyManagers.PromotionIntended | AsioNet/AsioNet/proxy_manager.cpp:184-245 | with a working erase a promoted session leaves the unmanaged table and is filed once with the new logic |
| ProxyManagers.VerifyAsWritten | AsioNet/AsioNet/proxy_manager.cpp:81-134 | success holds exactly for a link type above MULTI_SESSION_BEGIN whose uid is not yet a server, which is then promoted; failure changes nothing; the target uid is left as it was |
| ProxyManagers.LastMatch | AsioNet/AsioNet/proxy_manager.cpp:87-100 | the search finds a server exactly when one in the visiting order has the requested id, and what it finds has it |
| ProxyManagers.LastMatchIsLast | AsioNet/AsioNet/proxy_manager.cpp:88-99 | the server found is one the loop visited, and none visited after it matches |
| ProxyManagers.LastMatchOverTable | AsioNet/AsioNet/proxy_manager.cpp:87-100 | over an order listing every server once, the search finds a server exactly when some registered server has the requested id |
| ProxyManagers.VerifyIntended | AsioNet/AsioNet/proxy_manager.cpp:81-134 | for an order that lists the server table once each, a CLIENT_PROXY succeeds exactly when some registered server has the id, which becomes the target, is sent a connect-confirm, and the client is promoted; a failing one changes nothing; other types behave as written |
| ProxyManagers.KicksOf | AsioNet/AsioNet/proxy_manager.cpp:264-287 | a kick handler kicks exactly the sessions of the table matching the type, in the visiting order |
| ProxyManagers.ProxyManager.constructor | AsioNet/AsioNet/proxy_manager.cpp:11-20 | the three tables start empty |
| ProxyManagers.ProxyManager.AcceptSession | AsioNet/AsioNet/proxy_manager.cpp:40-72 | an accepted session with a default logic is inserted in the unmanaged table under its uid unless that uid is there |
| ProxyManagers.ProxyManager.Announce | AsioNet/AsioNet/default_session_logic.cpp:95-98 | storing a request's server info changes only that session's default logic |
| ProxyManagers.ProxyManager.MoveServerAvailable | AsioNet/AsioNet/proxy_manager.cpp:215-245 | the tables become Move's, toward the server table, with erase as written |
| ProxyManagers.ProxyManager.MoveClientAvailable | AsioNet/AsioNet/proxy_manager.cpp:184-213 | the tables become Move's, toward the client table, with erase as written |
| ProxyManagers.ProxyManager.VerifyAuthentication | AsioNet/AsioNet/proxy_manager.cpp:81-134 | result, target, actions and tables are VerifyAsWritten's |
| ProxyManagers.ProxyManager.VerifyAuthenticationIntended | AsioNet/AsioNet/proxy_manager.cpp:81-134 | result, target, actions and tables are VerifyIntended's for an order listing every server once |
| ProxyManagers.ProxyManager.SendToServer | AsioNet/AsioNet/proxy_manager.cpp:136-146 | one async_send to the server filed under target; nothing for an unknown uid |
| ProxyManagers.ProxyManager.SendToServerMulti | AsioNet/AsioNet/proxy_manager.cpp:148-158 | one async_send_multi to the server filed under target; nothing for an unknown uid |
| ProxyManagers.ProxyManager.SendToClient | AsioNet/AsioNet/proxy_manager.cpp:160-170 | one async_send to the client filed under the uid; nothing for an unknown uid |
| ProxyManagers.ProxyManager.SendToClientMulti | AsioNet/AsioNet/proxy_manager.cpp:172-182 | one async_send_multi to the client filed under the uid; nothing for an unknown uid |
| ProxyManagers.ProxyManager.KickOneClient | AsioNet/AsioNet/proxy_manager.cpp:247-260 | true exactly when the uid is a client, which is then kicked |
| ProxyManagers.ProxyManager.KickServerPeer | AsioNet/AsioNet/proxy_manager.cpp:262-292 | as written nobody is kicked and the result is false |
| ProxyManagers.ProxyManager.KickServerPeerIntended | AsioNet/AsioNet/proxy_manager.cpp:262-292 | for orders listing each table once, every kick is of a session routed to or serving the type, every client routed to it and every server of it is kicked; the result is still false |
| ProxyManagers.ProxyManager.CleanUpClosedSessions | AsioNet/AsioNet/proxy_manager.cpp:294-320 | as written the sweep changes no table |
| ProxyManagers.ProxyManager.CleanUpClosedSessionsIntended | AsioNet/AsioNet/proxy_manager.cpp:304-316 | the intended sweep removes exactly the closed sessions from the client and server tables |
| ProxyManagers.NoClientEverVerified | AsioNet/AsioNet/proxy_manager.cpp:83-108 | as written no client can ever authenticate |
| ProxyManagers.ClientVerifiedWhenServerRegistered | AsioNet/AsioNet/proxy_manager.cpp:83-117 | with the search run over an order listing every server, a client naming a registered server is accepted and routed to a server with that id |
| ProxyManagers.DuplicateServerRejected | AsioNet/AsioNet/proxy_manager.cpp:119-131 | a server accepted once is rejected the second time |
| ActiveServerSessionLogics.RecordBytes | AsioNet/TestClient/active_server_session_logic.cpp:85-109 | a record is 8 + len bytes: the client uid, the command and the length, big-endian, then the payload |
| ActiveServerSessionLogics.UnwrapOutcome | AsioNet/TestClient/active_server_session_logic.cpp:24-55 | a frame is refused exactly when it is empty or its mask fails; before verification an accepted frame only sets the verdict; after it a ConnectionConfirm goes to the manager and anything else is delivered whole |
| ActiveServerSessionLogics.WrappedFrameDelivered | AsioNet/TestClient/active_server_session_logic.cpp:24-55 | after verification a non-empty RoutingTransparent frame is delivered intact |
| ActiveServerSessionLogics.EchoedVerdictInvertedAsWritten | AsioNet/TestClient/active_server_session_logic.cpp:160-173 | as written the gateway's success echo leaves the server VERIFY_FAILED and a failure echo VERIFY_SUCC |
| ActiveServerSessionLogics.EchoedVerdictKeptIntended | AsioNet/TestClient/active_server_session_logic.cpp:160-173 | with the test the right way round, the recorded state agrees with the gateway's verdict |
| ActiveServerSessionLogics.ConfirmReadBack | AsioNet/TestClient/active_server_session_logic.cpp:175-183 | a ConnectionConfirm as the gateway means to pack it reaches the manager with the client uid and address intact |
| ActiveServerSessionLogics.AuthRequestOut | AsioNet/TestClient/active_server_session_logic.cpp:118-131 | the request buffer has offset 11 and length platform + 8, and holds the packed request with link type ACTIVE_GAMESVR |
| ActiveServerSessionLogics.AuthRequestAnnouncesServer | AsioNet/TestClient/active_server_session_logic.cpp:118-131 | the gateway decodes the request back to this server's area, id and platform under ACTIVE_GAMESVR |
| ActiveServerSessionLogics.ActiveServerSessionLogic.constructor | AsioNet/TestClient/active_server_session_logic.cpp:9-13 | a new logic has sequence 0 and is BEFORE_VERIFY |
| ActiveServerSessionLogics.ActiveServerSessionLogic.Reset | AsioNet/TestClient/active_server_session_logic.cpp:147-153 | reset returns to sequence 0 and BEFORE_VERIFY |
| ActiveServerSessionLogics.ActiveServerSessionLogic.SetServerInfo | AsioNet/TestClient/active_server_session_logic.cpp:142-145 | set_server_info stores the info |
| ActiveServerSessionLogics.ActiveServerSessionLogic.ShareStorage | AsioNet/TestClient/active_server_session_logic.cpp:155-158 | share_storage stores the ring |
| ActiveServerSessionLogics.ActiveServerSessionLogic.Unwrap | AsioNet/TestClient/active_server_session_logic.cpp:160-183 | the result, the new verdict, the manager call and ret_block follow UnwrapOutcome under the as-written verdict rule |
| ActiveServerSessionLogics.ActiveServerSessionLogic.Wrap | AsioNet/TestClient/active_server_session_logic.cpp:62-81 | the sequence is raised first; the header carries AuthenticationAAA before verification and RoutingTransparent after, and is written before the payload |
| ActiveServerSessionLogics.ActiveServerSessionLogic.SendVerifyAuthentication | AsioNet/TestClient/active_server_session_logic.cpp:118-140 | a live session is sent the request for this server; a gone one nothing |
| ActiveServerSessionLogics.ActiveServerSessionLogic.TryCopyToStorage | AsioNet/TestClient/active_server_session_logic.cpp:83-112 | the uid is stripped; the record is stored exactly when 8 + length more bytes fit; then the ring grows by RecordBytes, otherwise it is untouched |
| ActiveServerSessionLogics.AppendRecord | AsioNet/TestClient/active_server_session_logic.cpp:97-109 | the four tryWrite calls append exactly the record |
| ActiveServerSessionMgrs.UidBytes | AsioNet/TestClient/active_server_session_mgr.cpp:88-91 | the uid list takes four bytes per target |
| ActiveServerSessionMgrs.UidBytesAt | AsioNet/TestClient/active_server_session_mgr.cpp:90 | bytes 4i..4i+4 of the list are target i, big-endian |
| ActiveServerSessionMgrs.BroadcastLayout | AsioNet/TestClient/active_server_session_mgr.cpp:82-91 | the broadcast payload is the count, the uids, then the message |
| ActiveServerSessionMgrs.BroadcastLayoutReadBack | AsioNet/TestClient/active_server_session_mgr.cpp:82-91 | the gateway reads back the count and every target in order |
| ActiveServerSessionMgrs.BroadcastLayoutTargets | AsioNet/TestClient/active_server_session_mgr.cpp:88-91 | the first k targets read are the first k written |
| ActiveServerSessionMgrs.LayoutUidAt | AsioNet/TestClient/active_server_session_mgr.cpp:90 | the u32 at 2 + 4i is target i |
| ActiveServerSessionMgrs.ParseRecord | AsioNet/TestClient/active_server_session_mgr.cpp:97-137 | a record is there exactly when its header and announced payload are stored, and the record then the rest rebuild the stream |
| ActiveServerSessionMgrs.RecordRoundTrip | AsioNet/TestClient/active_server_session_logic.cpp:83-112 | a stored record is read back whole, whatever follows it |
| ActiveServerSessionMgrs.ParseAfterHead | AsioNet/TestClient/active_server_session_mgr.cpp:101-126 | a stream starting with a record header holds a record once the announced payload is stored |
| ActiveServerSessionMgrs.ReadInto | AsioNet/TestClient/active_server_session_mgr.cpp:108-126 | a tryRead into a local array leaves it as it was on an empty ring, and otherwise takes the first n stored bytes |
| ActiveServerSessionMgrs.ReadRecordHead | AsioNet/TestClient/active_server_session_mgr.cpp:108-118 | the three header reads leave garbage on an empty ring and otherwise take the first 8 stored bytes; with 1 to 7 bytes stored, the reads stop at the first read that empties the ring (after 4 or 6 bytes) or overrun it, and the header is those bytes followed by garbage |
| ActiveServerSessionMgrs.ShortHeadSkip | AsioNet/TestClient/active_server_session_mgr.cpp:108-118 | with 1 to 7 bytes stored, the header reads consume at least the stored bytes and at most 8, and stop short of 8 exactly when 4 or 6 bytes are stored, because a read then leaves the ring empty |
| ActiveServerSessionMgrs.WriteUids | AsioNet/TestClient/active_server_session_mgr.cpp:88-91 | the loop writes UidBytes of the targets at start and nothing else |
| ActiveServerSessionMgrs.UidsStep | AsioNet/TestClient/active_server_session_mgr.cpp:90 | one more pass appends the next uid's four bytes |
| ActiveServerSessionMgrs.ActiveServerSessionMgr.constructor | AsioNet/TestClient/active_server_session_mgr.cpp:7-12 | the manager starts with an empty ring of TOTAL_CACHE_SIZE and no addresses |
| ActiveServerSessionMgrs.ActiveServerSessionMgr.GetSessionRemoteIp | AsioNet/TestClient/active_server_session_mgr.cpp:139-148 | an unknown client has address 0 |
| ActiveServerSessionMgrs.ActiveServerSessionMgr.SetSessionRemoteIp | AsioNet/TestClient/active_server_session_mgr.cpp:150-163 | the client then has that address and every other client keeps its own |
| ActiveServerSessionMgrs.ActiveServerSessionMgr.Send | AsioNet/TestClient/active_server_session_mgr.cpp:57-71 | one send of the target uid followed by the message, from offset 11 |
| ActiveServerSessionMgrs.ActiveServerSessionMgr.Broadcast | AsioNet/TestClient/active_server_session_mgr.cpp:73-95 | more than 0xFFFF targets sends nothing; otherwise one send of the first len bytes of the layout, the length never covering count and uids |
| ActiveServerSessionMgrs.ActiveServerSessionMgr.BroadcastIntended | AsioNet/TestClient/active_server_session_mgr.cpp:73-95 | the intended broadcast sends the whole layout |
| ActiveServerSessionMgrs.ActiveServerSessionMgr.BroadcastBuffer | AsioNet/TestClient/active_server_session_mgr.cpp:81-92 | the buffer holds the layout from offset 11 |
| ActiveServerSessionMgrs.ActiveServerSessionMgr.PickMsg | AsioNet/TestClient/active_server_session_mgr.cpp:97-137 | a header is read only while the cached length is non-zero and the ring does not hold exactly 8 bytes; the payload is refused only when the ring holds exactly the cached length; success zeroes the cache; with 1 to 7 bytes stored the header mixes them with garbage, an overrun read hands out the payload past them, and a read that empties the ring leaves a garbage header cached or hands out an empty block |
| ActiveServerSessionMgrs.ActiveServerSessionMgr.TakePayload | AsioNet/TestClient/active_server_session_mgr.cpp:121-136 | refused exactly when the ring holds the cached length; otherwise the cached header is handed out with what tryRead gives and the cache zeroed |
| ActiveServerSessionMgrs.ActiveServerSessionMgr.ReadHeader | AsioNet/TestClient/active_server_session_mgr.cpp:108-118 | the cached header becomes the first 8 stored bytes, or garbage on an empty ring, or with 1 to 7 stored bytes the bytes read before the ring emptied followed by garbage |
| ActiveServerSessionMgrs.ActiveServerSessionMgr.PickMsgIntended | AsioNet/TestClient/active_server_session_mgr.cpp:97-137 | the corrected reader hands out exactly the first complete record and removes exactly it from the stream, and nothing while it is incomplete |
| ActiveServerSessionMgrs.ActiveServerSessionMgr.CacheHeaderIntended | AsioNet/TestClient/active_server_session_mgr.cpp:101-119 | a header is ready exactly when one is cached or 8 bytes are stored, and caching it keeps the stream |
| ActiveServerSessionMgrs.LaterRecordsNeverReadAsWritten | AsioNet/TestClient/active_server_session_mgr.cpp:101-136 | as written, after a first success a stored record is reported twice as an empty message from uid 0 and stays stored |
| InnerSessionLogics.FrameAfterHead | AsioNet/TestClient/inner_pair_session.cpp:94-110 | a stream starting with a header holds a complete frame exactly when the announced payload follows, and the frame is that header and payload |
| InnerSessionLogics.StoredFrameReadBack | AsioNet/TestClient/inner_session_logic.cpp:77-79 | a stored frame is read back whole, whatever follows it |
| InnerSessionLogics.AppendFrame | AsioNet/TestClient/inner_session_logic.cpp:77-79 | the two tryWrite calls append exactly the header bytes then the payload |
| InnerSessionLogics.InnerSessionLogic.constructor | AsioNet/TestClient/inner_session_logic.cpp:6-17 | the logic reads from the storage it is given |
| InnerSessionLogics.InnerSessionLogic.ShareStorage | AsioNet/TestClient/inner_session_logic.cpp:14-17 | share_storage stores the ring |
| InnerSessionLogics.InnerSessionLogic.Unwrap | AsioNet/TestClient/inner_session_logic.cpp:24-45 | a frame is accepted exactly when its mask checks and it is not empty, and then its payload is copied to ret_block; the sequence is ignored |
| InnerSessionLogics.InnerSessionLogic.Wrap | AsioNet/TestClient/inner_session_logic.cpp:52-67 | the frame is RoutingTransparent with sequence 0, uncompressed, sealed, and its header is written before the payload |
| InnerSessionLogics.InnerSessionLogic.TryCopyToStorage | AsioNet/TestClient/inner_session_logic.cpp:69-82 | the frame is stored exactly when header and payload fit, and then the ring grows by the frame; otherwise it is untouched |
| InnerSessionLogics.WrappedPayloadStoredIntact | AsioNet/TestClient/inner_session_logic.cpp:24-82 | a payload wrapped by the sender is accepted by the receiver, stored, and read back as that header and payload |
| InnerPairSessions.InnerPairSession.constructor | AsioNet/TestClient/inner_pair_session.cpp:8-12 | a new pair session has an empty ring of TOTAL_CACHE_SIZE and no cached header |
| InnerPairSessions.InnerPairSession.Send | AsioNet/TestClient/inner_pair_session.cpp:80-88 | one send of the data at offset 11 with the given length |
| InnerPairSessions.InnerPairSession.PickMsg | AsioNet/TestClient/inner_pair_session.cpp:90-115 | the result is always false; with no header cached it stops at exactly 11 stored bytes; the payload read fails only on an empty ring; otherwise the frame is written out and the cache cleared |
| InnerPairSessions.InnerPairSession.LoadHeadAsWritten | AsioNet/TestClient/inner_pair_session.cpp:94-103 | the header step stops exactly at 11 stored bytes, and otherwise reads 11 bytes over the pooled head |
| InnerPairSessions.InnerPairSession.TakeFrameAsWritten | AsioNet/TestClient/inner_pair_session.cpp:105-112 | the payload step fails only on an empty ring, keeping the header; otherwise it hands out header and bytes and clears the cache |
| InnerPairSessions.InnerPairSession.PickMsgIntended | AsioNet/TestClient/inner_pair_session.cpp:90-115 | the corrected reader succeeds exactly when a complete frame is stored, hands out that frame and removes exactly it |
| InnerPairSessions.InnerPairSession.CacheHeadIntended | AsioNet/TestClient/inner_pair_session.cpp:94-103 | a header is ready exactly when cached or 11 bytes are stored, and caching it keeps the stream |
| InnerPairSessions.DeliveredButReportedFailedAsWritten | AsioNet/TestClient/inner_pair_session.cpp:105-114 | as written a stored frame is handed out and consumed, yet false is returned |
| InnerPairSessions.DeliveredAndReportedIntended | AsioNet/TestClient/inner_pair_session.cpp:90-115 | the corrected reader hands out the same frame and reports true |
| WLogs.TypeBit | AsioNet/AsioNet/WLog/WLog.cpp:224 | `1 << bType` as an unsigned int is 2 to the power bType, for shifts below 32 |
| WLogs.Strlen | AsioNet/AsioNet/WLog/WLog.cpp:282 | strlen is the index of the first NUL (or the whole array when there is none), and no earlier character is NUL |
| WLogs.Strncpy | AsioNet/AsioNet/WLog/WLog.cpp:46-49 | strncpy gives exactly n characters: those of the source, then NUL padding |
| WLogs.StrncpyHolds | AsioNet/AsioNet/WLog/WLog.cpp:46-49 | the string strncpy leaves is the source cut to n characters |
| WLogs.NormalizedPath | AsioNet/AsioNet/WLog/WLog.cpp:282-300 | the directory is non-empty, shorter than MAX_STR_LEN, ends in '/' and is otherwise a prefix of the input; a path already ending in '/' is kept, a short one gains a '/' |
| WLogs.NormalizedPathIdempotent | AsioNet/AsioNet/WLog/WLog.cpp:278-303 | normalising a normalised directory changes nothing |
| WLogs.TwoDigits | AsioNet/AsioNet/WLog/WLog.cpp:183 | "%02d" of a value below 100 is two characters |
| WLogs.Stamp | AsioNet/AsioNet/WLog/WLog.cpp:183 | the time stamp is nine characters, hh:mm:ss followed by a space |
| WLogs.Truncate | AsioNet/AsioNet/WLog/WLog.cpp:183-188 | snprintf keeps a prefix of the text of at most the room given, and all of it when it fits |
| WLogs.LogLine | AsioNet/AsioNet/WLog/WLog.cpp:178-188 | the block holds the type, year + 1900 (when it fits an unsigned short), month + 1 and the day; its text starts with the stamp and continues with the whole message when it fits |
| WLogs.LineText | AsioNet/AsioNet/WLog/WLog.cpp:178-188 | the text is 9 to MAX_STR_LEN - 1 characters, starts with the 9-character stamp, and continues with the whole message when stamp and message fit |
| WLogs.FreeBlocks | AsioNet/AsioNet/WLog/WLog.cpp:67-70 | the free list holds every block index once, in order |
| WLogs.NewCString | AsioNet/AsioNet/WLog/WLog.cpp:46 | a fresh array filled by strncpy |
| WLogs.NewBlocks | AsioNet/AsioNet/WLog/WLog.cpp:66 | a fresh array of the requested number of blocks |
| WLogs.WLog.constructor | AsioNet/AsioNet/WLog/WLog.cpp:32-79 | the mask starts empty; the directory is normalised and the name copied; one block without a worker thread, at least one with it, all on the free list in order |
| WLogs.WLog.AppendLogMask | AsioNet/AsioNet/WLog/WLog.cpp:222-225 | the type's bit is set and every other bit keeps its value |
| WLogs.WLog.RemoveLogMask | AsioNet/AsioNet/WLog/WLog.cpp:228-231 | the type's bit is cleared and every other bit keeps its value |
| WLogs.WLog.PeekLogMask | AsioNet/AsioNet/WLog/WLog.cpp:234-237 | true exactly when the type's bit is set |
| WLogs.WLog.CreateLogPath | AsioNet/AsioNet/WLog/WLog.cpp:278-303 | the array then holds the normalised directory, terminated inside the array |
| WLogs.WLog.AllocFreeLogContent | AsioNet/AsioNet/WLog/WLog.cpp:305-329 | with a worker thread the front of the free list is taken (none when it is empty); without one the single block is always returned; no block is lost or duplicated |
| WLogs.WLog.ReleaseFreeLogContent | AsioNet/AsioNet/WLog/WLog.cpp:331-350 | with a worker thread the block goes to the back of the free list; otherwise nothing changes |
| WLogs.WLog.StopWorkThread | AsioNet/AsioNet/WLog/WLog.cpp:419-428 | the stop flag is raised exactly when there is a worker thread |
| WLogs.WLog.Trace | AsioNet/AsioNet/WLog/WLog.cpp:153-219 | nothing happens for a missing format, a type at or past ELT_Max or a masked-off type; otherwise a block is filled with the line and written at once, queued, or dropped while stopping |
| WLogs.QueueAccounting | AsioNet/AsioNet/WLog/WLog.cpp:153-219 | a block taken from the free list is held again once queued and missing from both lists once dropped, so the lists never hold more than before |
| WLogs.WLog.Dispatch | AsioNet/AsioNet/WLog/WLog.cpp:178-208 | the taken block, and no other, holds the line; it is written at once without a worker thread and queued with one unless stopping |
| WLogs.FreshLoggerIsSilent | AsioNet/AsioNet/WLog/WLog.cpp:32-35 | a fresh logger writes and queues nothing for any type |
| WLogs.AppendThenRemove | AsioNet/AsioNet/WLog/WLog.cpp:153-231 | a switched-on type is written at once without a worker thread, and is silent again once removed |
| SocketClients.AsInt32 | CsNetwork/SocketClient.cs:222 | an unchecked int result is the mathematical value modulo 2^32 |
| SocketClients.AsInt32Fits | CsNetwork/SocketClient.cs:222 | a value that fits in an int is kept |
| SocketClients.ElapsedAcrossWrap | CsNetwork/SocketClient.cs:221-223 | across a wrap of the tick count the unchecked subtraction still gives the true elapsed time below 2^31 ms |
| SocketClients.NextSeq | CsNetwork/SocketClient.cs:186-189 | the UInt32 successor, which is 0 exactly after 0xFFFFFFFF |
| SocketClients.FrameHead | CsNetwork/SocketClient.cs:367-384 | 11 bytes: the frame key 0x2e, then len, cmd and seq each most significant byte first |
| SocketClients.DecodeHead | CsNetwork/SocketClient.cs:28-38 | the header fields read most significant byte first, at the offsets they are written |
| SocketClients.DecodeHeadAsWritten | CsNetwork/SocketClient.cs:416-418 | the fields as BitConverter reads them on a little-endian host: least significant byte first |
| SocketClients.HeadRoundTrip | CsNetwork/SocketClient.cs:367-384 | every header written is read back whole in writing order, whatever follows it |
| SocketClients.HostOrderMisreadsWrappedHead | CsNetwork/SocketClient.cs:367-418 | a one-byte frame with sequence 1 is read back as a 16 MiB frame with sequence 0x01000000 |
| SocketClients.Record | CsNetwork/SocketClient.cs:442-450 | a body record is its size in two host-order bytes followed by its bytes |
| SocketClients.Join | CsNetwork/SocketClient.cs:27 | a body of records holds at least two bytes per record |
| SocketClients.SplitJoin | CsNetwork/SocketClient.cs:437-458 | the body loop hands on exactly the records a body was built from, in order, without an exception |
| SocketClients.SplitJoinFrom | CsNetwork/SocketClient.cs:437-458 | the same from any starting position in a longer array |
| SocketClients.EnterEffectsCases | CsNetwork/SocketClient.cs:196-213 | entering Closed or Timeout closes an existing socket and does nothing else; entering Connected calls the callback and starts each missing thread; other states do nothing |
| SocketClients.SocketClient.constructor | CsNetwork/SocketClient.cs:50-77 | state Init, no socket or threads, sequence numbers 0, two empty 10 MiB ring buffers |
| SocketClients.SocketClient.AsyncConnect | CsNetwork/SocketClient.cs:85-108 | the callback and start tick are kept, a non-positive timeout becomes 60 s, the state is Connecting and a socket exists |
| SocketClients.SocketClient.OnAsyncConnectDone | CsNetwork/SocketClient.cs:110-141 | a completion for the current socket gives Connected or Closed by the socket's state; a stale one changes nothing |
| SocketClients.SocketClient.StateEnter | CsNetwork/SocketClient.cs:196-245 | the effects of entering the state are logged, and entering Connected leaves both threads started |
| SocketClients.SocketClient.StateExec | CsNetwork/SocketClient.cs:215-228 | Connecting becomes Timeout exactly when the unchecked elapsed time exceeds the timeout |
| SocketClients.SocketClient.Tick | CsNetwork/SocketClient.cs:168-178 | a changed state is entered once and recorded, and entering Connected starts the send and receive threads; an unchanged one adds no effect and starts no thread; then the state runs |
| SocketClients.SocketClient.WrapSendData | CsNetwork/SocketClient.cs:354-399 | the sequence number advances; the frame is the header of the payload length and new sequence followed by the payload; copying past the data throws |
| SocketClients.SocketClient.WriteHead | CsNetwork/SocketClient.cs:367-384 | the head array holds exactly the encoded header |
| SocketClients.SocketClient.CopyFrame | CsNetwork/SocketClient.cs:386-394 | the frame is the header followed by the first len data bytes, and the copy throws exactly when len exceeds the data |
| SocketClients.SocketClient.Send | CsNetwork/SocketClient.cs:331-352 | the caller spins exactly while the buffer is full for the frame; WrapSendData throws exactly when len exceeds the caller's array; otherwise the sequence advances, the ring receives the framed head and payload as TryWrite writes them, and the write never reports success |
| SocketClients.SocketClient.Recv | CsNetwork/SocketClient.cs:405-410 | every call returns false or throws, and the read index never moves |
| SocketClients.SocketClient.ReadFrame | CsNetwork/SocketClient.cs:412-458 | the header is read in host order, its sequence stored, a non-common command reported, and the body records handed on in order |
| SocketClients.SplitBody | CsNetwork/SocketClient.cs:437-458 | the records handed on, and whether the loop throws, are those the body loop defines |
| SocketClients.ReadRecord | CsNetwork/SocketClient.cs:440-452 | one pass reads a size and its record, or throws when either reaches past the body |
| SocketClients.CopyRecord | CsNetwork/SocketClient.cs:447-451 | the record holds the body bytes after the size, and the copy throws exactly when they reach past the body |
| SocketClients.ConnectTimesOut | CsNetwork/SocketClient.cs:168-228 | a connect that hears nothing back times out after 60 s and closes its socket once |
| CsRingBuffers.CsRem | CsNetwork/RingBuffer.cs:25 | C#'s remainder lies strictly between -capacity and capacity and takes the sign of the dividend |
| CsRingBuffers.CsRemTruncates | CsNetwork/RingBuffer.cs:25 | the remainder completes the truncated quotient, as C# defines `%` |
| CsRingBuffers.TriClosedForm | CsNetwork/RingBuffer.cs:69-106 | after iteration i a moving index has advanced by i(i+1)/2 |
| CsRingBuffers.TriIncreasing | CsNetwork/RingBuffer.cs:104-108 | the write loop never stores to the same position twice |
| CsRingBuffers.FirstFault | CsNetwork/RingBuffer.cs:61-72 | the iteration at which a copy loop throws is the first out of range in either array, or the end of the loop |
| CsRingBuffers.FirstFaultIs | CsNetwork/RingBuffer.cs:61-72 | a loop whose iterations stay in range up to i and throw at i stops at i |
| CsRingBuffers.CsRingBuffer.constructor | CsNetwork/RingBuffer.cs:31-35 | a zeroed array of the capacity, both indices 0 |
| CsRingBuffers.CsRingBuffer.Count | CsNetwork/RingBuffer.cs:21-27 | Count lies strictly between -capacity and capacity |
| CsRingBuffers.CsRingBuffer.CountCases | CsNetwork/RingBuffer.cs:21-27 | Count is the unread length while the write index is less than a capacity ahead; it is negative exactly when the write index is behind by a non-multiple of the capacity, and 0 when exactly a capacity ahead |
| CsRingBuffers.CsRingBuffer.Full | CsNetwork/RingBuffer.cs:37-40 | never full for nothing to add; otherwise full exactly when the unread bytes plus the addition reach the capacity |
| CsRingBuffers.CsRingBuffer.Empty | CsNetwork/RingBuffer.cs:42-45 | empty exactly when the write index is not ahead, or ahead by a multiple of the capacity |
| CsRingBuffers.CsRingBuffer.TryRead | CsNetwork/RingBuffer.cs:51-76 | never returns true; nothing changes when empty or when Count - size <= 0; otherwise each iteration copies the byte at the peeked or shifted position until the first index out of range throws |
| CsRingBuffers.CsRingBuffer.CopyOut | CsNetwork/RingBuffer.cs:61-72 | the copied prefix of ret holds the bytes at the positions visited, the read index has moved by the triangular distance, and the loop throws at the first fault |
| CsRingBuffers.CsRingBuffer.LoadStep | CsNetwork/RingBuffer.cs:63-71 | one iteration: the read index moves by i when shifting, and ret[i] gets the byte at that position unless an index is out of range |
| CsRingBuffers.CsRingBuffer.TryReadShift | CsNetwork/RingBuffer.cs:82-89 | succeeds exactly when Count exceeds size, and then moves the read index by size, lowering Count by size |
| CsRingBuffers.CsRingBuffer.TryWrite | CsNetwork/RingBuffer.cs:93-112 | never returns true; nothing changes when size + Count reaches the capacity; otherwise each iteration stores data[i] at the moved write index until the first index out of range throws, no other byte changes, and the write index moves by the iterations done |
| CsRingBuffers.CsRingBuffer.CopyIn | CsNetwork/RingBuffer.cs:104-108 | exactly the positions visited hold the data bytes, the rest of the array is unchanged, and the loop throws at the first fault |
| CsRingBuffers.CsRingBuffer.StoreStep | CsNetwork/RingBuffer.cs:106-107 | one iteration: the write index moves by i and data[i] lands there unless an index is out of range; no earlier position is revisited |
| CsRingBuffers.CsRingBuffer.Clear | CsNetwork/RingBuffer.cs:114-118 | both indices 0, so Count is 0 and the buffer is empty |
| CsRingBuffers.WriteScattersAsWritten | CsNetwork/RingBuffer.cs:104-111 | three bytes written to an 8-byte ring land at 0, 1 and 3, Count reports 3 and the call reports failure |
| CsRingBuffers.WriteKeptIntended | AsioNet/AsioNet/parallel_core/RingBuffer.h:106-123 | the same bytes written to a contiguous ring are stored in order and the write succeeds |
| BlockMallocs.SizeClass | CsNetwork/BlockMalloc.cs:105-121 | a size has a class exactly when it is at most K_MAX_BLOCK_SIZE |
| BlockMallocs.SlotSizeIncreasing | CsNetwork/BlockMalloc.cs:88-98 | larger classes hold larger blocks |
| BlockMallocs.SizeClassBounds | CsNetwork/BlockMalloc.cs:105-121 | every size up to 8192 falls in the one class whose largest size bounds it, between 0 and 184 |
| BlockMallocs.SizeClassTable | CsNetwork/BlockMalloc.cs:88-99 | the table in the comment holds: 0, 1, 1024, 1025 and 8192 map to 0, 1, 128, 129 and 184, 8193 has no class, and TOTAL_ARRAY_COUNT is 184 |
| BlockMallocs.SizeClassMonotone | CsNetwork/BlockMalloc.cs:105-121 | the class never decreases as the size grows |
| BlockMallocs.LastClassPastTable | CsNetwork/BlockMalloc.cs:99-121 | exactly the sizes 8065 to 8192 map to class 184, one past the last slot |
| BlockMallocs.SlotSizeInClass | CsNetwork/BlockMalloc.cs:123-136 | the largest size of a class is of that class |
| BlockMallocs.ClassStep | CsNetwork/BlockMalloc.cs:125-135 | from one size to the next the class grows by at most one |
| BlockMallocs.BlockPool.constructor | CsNetwork/BlockMalloc.cs:100-104 | a zeroed table of the given number of slots and a slot array of as many null stacks |
| BlockMallocs.BlockPool.InitSizeArray | CsNetwork/BlockMalloc.cs:123-136 | throws exactly when the table has at most 184 slots; every slot up to 184 the table has ends holding its class's largest size, and slots past 184 are untouched |
| BlockMallocs.BlockPool.Alloc | CsNetwork/BlockMalloc.cs:48-73 | above 8192 a fresh array of the size; otherwise null, with IndexOutOfRange logged for a class outside the table, NullReference for a null slot and InvalidOperation for an empty stack, and a fresh array of the slot size only for a non-empty stack; the pool never changes |
| BlockMallocs.BlockPool.AllocIntended | CsNetwork/BlockMalloc.cs:48-73 | the corrected Alloc pops a non-empty stack and makes a fresh slot-size array for an empty one, with the same null results for a bad class or a null slot; every block handed out is of the size's class, and a fresh one is large enough |
| BlockMallocs.BlockPool.Free | CsNetwork/BlockMalloc.cs:75-86 | a block of a class is pushed on its stack and one above 8192 is dropped; a class past the table logs IndexOutOfRange and a null slot NullReference, and the pool is unchanged |
| BlockMallocs.Popped | CsNetwork/BlockMalloc.cs:64 | the stack after a pop, with the popped block put back on top, is the stack before |
| BlockMallocs.SizeTableAsWritten | CsNetwork/BlockMalloc.cs:99-136 | the table of TOTAL_ARRAY_COUNT slots cannot be filled: initSizeArray throws |
| BlockMallocs.SizeTableIntended | CsNetwork/BlockMalloc.cs:99-136 | a table with one more slot is filled whole, each slot with its class's largest size |
| BlockMallocs.FreedBlockIgnoredAsWritten | CsNetwork/BlockMalloc.cs:58-65 | even with a stack in every slot, the as-written Alloc never hands a freed block out again |
| BlockMallocs.FreedBlockLostAsWritten | CsNetwork/BlockMalloc.cs:75-86 | with every slot null, Free logs NullReference and keeps nothing, and the next Alloc of the class returns null |
| BlockMallocs.FreedBlockReusedIntended | CsNetwork/BlockMalloc.cs:48-86 | with a stack in every slot, the corrected Alloc after a Free hands the freed block back and leaves the stacks as before |
| BlockMallocs.EmptyPoolAllocNullAsWritten | CsNetwork/BlockMalloc.cs:48-73 | as written Alloc on a new pool returns null exactly for the sizes up to 8192, logging IndexOutOfRange below -7 and from 8065 on and NullReference otherwise, never InvalidOperation |
| BlockMallocs.SizeClassOutside | CsNetwork/BlockMalloc.cs:99-121 | a size up to 8192 has its class outside a table of 184 slots exactly below -7 and from 8065 on |
| BlockMallocs.FreshPoolAllocIntended | CsNetwork/BlockMalloc.cs:48-136 | the corrected pool, with stacks and a filled table, hands out an array at least as large as asked for every size |
| NetworkManagers.CopyBlock | CsNetwork/NetworkManager.cs:96-99 | a copy that succeeds keeps the batch array's length |
| NetworkManagers.FillFrom | CsNetwork/NetworkManager.cs:92-101 | a copy loop that succeeds keeps the batch array's length |
| NetworkManagers.FlushAt | CsNetwork/NetworkManager.cs:90-101 | a flushed batch that is built has exactly the counted number of bytes |
| NetworkManagers.AccumulatedBatchThrows | CsNetwork/NetworkManager.cs:88-109 | once the byte count exceeds the list index, the next flush throws and nothing more is sent |
| NetworkManagers.SmallQueueThrowsAsWritten | CsNetwork/NetworkManager.cs:81-114 | any queue of two or more blocks whose first block fits sends nothing and throws |
| NetworkManagers.SingleBlockSendsNothingAsWritten | CsNetwork/NetworkManager.cs:81-114 | a one-block queue sends one empty batch |
| NetworkManagers.Size | CsNetwork/NetworkManager.cs:108-109 | a batch takes at least two bytes per block |
| NetworkManagers.SizeAppend | CsNetwork/NetworkManager.cs:108-109 | adding a block adds two bytes plus its length |
| NetworkManagers.GroupKeepsOrder | CsNetwork/NetworkManager.cs:85-111 | grouping with a current batch sends the current batch then the blocks, in order |
| NetworkManagers.BatchesKeepOrder | CsNetwork/NetworkManager.cs:85-111 | the intended batches send every block exactly once, in queue order |
| NetworkManagers.GroupFits | CsNetwork/NetworkManager.cs:88 | grouping from a batch that fits gives non-empty batches that fit in MAX_FRAME_SIZE |
| NetworkManagers.BatchesFit | CsNetwork/NetworkManager.cs:88 | when every block fits a frame on its own, every intended batch is non-empty and fits in MAX_FRAME_SIZE |
| NetworkManagers.JoinSize | CsNetwork/SocketClient.cs:27 | the records of a batch take exactly its counted size |
| NetworkManagers.BatchRoundTrip | CsNetwork/NetworkManager.cs:81-114 | each intended batch, laid out as records, fits in a frame and is split by the client's body loop back into exactly its blocks |
| NetworkManagers.BatchBlocksFit | CsNetwork/NetworkManager.cs:88 | each block of an intended batch fits a two-byte size |
| NetworkManagers.SizeBoundsBlock | CsNetwork/NetworkManager.cs:108-109 | one block with its size takes no more than the whole batch |
| NetworkManagers.NetworkManager.Snapshot | CsNetwork/NetworkManager.cs:62 | the snapshot holds each list entry's bytes and length, in order |
| NetworkManagers.NetworkManager.constructor | CsNetwork/NetworkManager.cs:62-63 | an empty list, index 0, nothing sent |
| NetworkManagers.NetworkManager.Send | CsNetwork/NetworkManager.cs:64-79 | the index advances by one; an existing block at the index is overwritten, otherwise one is appended; the list never shrinks and the blocks before the index are the earlier ones plus this one |
| NetworkManagers.NetworkManager.SendAllWhenUpdateEnd | CsNetwork/NetworkManager.cs:81-114 | the socket sends are those the walk over the whole list defines, and the index is reset unless an exception ends the walk |
| NetworkManagers.NetworkManager.FlushQueue | CsNetwork/NetworkManager.cs:85-111 | one send per batch boundary, stopping at the first exception |
| NetworkManagers.NetworkManager.FillBatch | CsNetwork/NetworkManager.cs:90-101 | the new array holds the flushed batch, or the copy throws exactly when the batch cannot be built |
| NetworkManagers.NetworkManager.FillLoop | CsNetwork/NetworkManager.cs:92-101 | the array holds the flushed batch, or the loop throws exactly when it cannot be built |
| NetworkManagers.NetworkManager.CallCacheClear | CsNetwork/NetworkManager.cs:131-134 | the list is emptied and the index kept, so the state is consistent exactly when the index was 0 |
| NetworkManagers.CopyBlockInto | CsNetwork/NetworkManager.cs:96-99 | the array holds the copied block, or the copy throws exactly when a byte falls outside either array |
| NetworkManagers.ClearBetweenSends | CsNetwork/NetworkManager.cs:64-134 | a clear between two sends leaves the index past a one-block list |

## Left out

- Socket, acceptor and timer I/O (asio reads, writes, accepts and timers; `init_options`; `get_remote_ip`): each completion is a method taking what the completion reports, and the remote address is a parameter.
- Sockets and threads in the C# client: the `Socket` calls, `closeSocket`'s shutdown and the send and receive threads (`SocketClient.cs:247-322`) are not modelled. Closing, the connect callback and thread starts are appended to an effect log.
- Clocks: `system_clock::now`, `clock()`, `time`, `localtime` and `Environment.TickCount` are parameters. A session uid is `(uint32_t)clock()`, so two sessions may share one; the routing tables keep that possibility by mapping uids to session identities.
- Concurrency: spin locks, mutexes, memory fences, strands, `async_job` lanes, `ThreadSafeObjectPool`, singletons and the logger's worker thread are dropped. Every operation is modelled as running alone. Work that `close` posts to the strand runs at once.
- RC4, gzip, LZ4 and BinaryFormatter: RC4 is a length-preserving function parameter, and gzip is a codec parameter that can fail. LZ4 compression and `SendCheckToken`'s serialisation (`NetworkManager.cs:27-60`) are not modelled. `Connect`, `Update` and `Receive` only forward to the socket client, whose operations are modelled.
- `error_code.hpp` is not part of this model. `EC_Success` and `EC_ServerNotFound` are two distinct chosen constants, and only their difference is used.
- Configuration files and logging sinks: JSON configuration, `LOG` macros, WLog's `PrepareLogFile`, `WriteImmediately` and `VerifyDirectory` are left out. Trace returns the block it would write.
- WLogs.WLog.Trace: the caller's format arguments are taken as an already formatted message, so `vsnprintf` formatting is not modelled.
- WLogs.WLog.StopWorkThread: only the stop flag is raised. The join and the worker's final drain of the used list (`WLog.cpp:371-417`) are not modelled.
- The `tryReadWithoutCopy` / `tryWriteWithoutCopy` branch of `RingBuffer.h` is compiled out and is not modelled.
- `SafeHashMap.hpp`'s `clear` and list `insert` (lines 21-26 and 73-78) are never instantiated and would not compile, so they are not modelled. `emplace` (lines 80-89) is unused by the core and is not modelled.
- `NumberExtension.cs` (host byte-order detection) is not modelled: a little-endian host is assumed wherever the C# code asks `BitConverter.IsLittleEndian`.
- BlockMallocs.BlockPool.constructor: the `Instance` singleton, its spin flag and the constructor's call through the still-null `_instance` are not modelled. A pool is built with a table of a given size.
- NetworkManagers.NetworkManager.SendAllWhenUpdateEnd: `BlockPool.Instance.Alloc` is taken to return a fresh zeroed array of the requested length, and `Free` is not modelled. As written, the pool returns null (see BlockMallocs.EmptyPoolAllocNullAsWritten).
- SocketClients.SocketClient.Send: the retry loop that sleeps while the send buffer is full is modelled as one pass, reported as `WouldSpin`.
- SocketClients.SocketClient.WrapSendData: the `int` overflow of `11 + len` for a length near 2^31 is not modelled. The data array is required to be shorter than 2^31.
- SocketClients.SocketClient.Recv: as written, `TryRead` never returns true, so lines 412-462 are unreachable. They are modelled separately as `ReadFrame` and `SplitBody`.
- CsRingBuffers.CsRingBuffer.constructor: a capacity of 0 would make `Count` divide by zero, so the constructor requires a positive capacity.
- CsRingBuffers.CsRingBuffer.TryWrite: the indices are unbounded integers, and the 32-bit wrap of `_writeIndex` after 2^31 bytes is not modelled.
- Random seeding: `SAFE_RAND` and `time(0)` are parameters of the rc4 key setup and of SafeRandom.
- Start and stop of the proxy manager, the active server manager and the inner pair session only drive executors, acceptors and timers, and are not modelled.
- Fields the source leaves uninitialised until first use are parameters of the constructors that model them.
- DefaultSessionLogics.DefaultSessionLogic.Unwrap: a request that reaches the verdict is required to unpack inside its block. A shorter one, such as a payload of 3 to 7 bytes whose 16-bit `length - 8` wraps, makes the source read past the buffer (`protocol.hpp:180-193`). That is undefined behaviour in C++, and the model excludes it instead of giving it a meaning.
- ServerSessionLogics.ServerSessionLogic.TryCopyToStorage: a broadcast payload is required to hold its count and every uid, and any other payload its 4-byte uid. The source checks neither (`server_session_logic.cpp:53-56` and `73-75`). A shorter payload wraps the `size_t` length and the copies read out of bounds, undefined behaviour the model excludes.
- ActiveServerSessionLogics.ActiveServerSessionLogic.TryCopyToStorage: the delivered message is required to hold the 4-byte uid that is stripped from it, which `active_server_session_logic.cpp:87-109` does not check. A shorter one wraps the length, undefined behaviour the model excludes.
- ClientSessionLogics.ClientSessionLogic.ChooseBody: the compressed form is assumed to sit at offset 11 of its fresh buffer. As written, that buffer comes from `TEMP_BUFFER`, whose `reset` sets the offset to 0, and where `gzip::Compressor` then writes is outside this model (`compression/compress.hpp` is not part of this model). At offset 0, the closing `offset -= PROTO_HEAD_SIZE` of `wrap_to_send_data` would wrap and fail its offset assertion. That path is not captured.
- ClientSessionLogics.ClientSessionLogic.Wrap: a compressed send is modelled with ChooseBody's placement at offset 11. It is the frame the closing offset check expects, not what a body at offset 0 would produce.
- SocketClients.SocketClient.WrapSendData: `BlockPool.Instance.Alloc(11 + len)` is taken to return a fresh zeroed array of that length. As written, the `Instance` getter's constructor dereferences the still-null `_instance` and throws. Even a built pool would return null for any length up to 8192 (see BlockMallocs.EmptyPoolAllocNullAsWritten).
- ActiveServerSessionMgrs.ActiveServerSessionMgr.Send: the message and its 15-byte prefix are required to fit the 64 KiB pooled buffer. The source copies the message in unchecked, and a longer one would write past the buffer, which the model does not give a meaning.
- ActiveServerSessionMgrs.ActiveServerSessionMgr.Broadcast: the header, the count, the uids and the message are required to fit the 64 KiB pooled buffer, for the same reason as Send.
- InnerPairSessions.InnerPairSession.Send: the data and its 11-byte prefix are required to fit the 64 KiB pooled buffer, for the same reason.
- ActiveServerSessionLogics.UnwrapOutcome: a verdict frame is given the verdict of its first byte whatever its length. In the source, `authentication_aaa_response::unpack` (`protocol.hpp:228-237`) takes `key_len = length - 11` as a `uint16_t`. A frame of 1 to 10 bytes wraps it, and the key and link-number reads run past the block. That undefined behaviour is not modelled. A ConnectionConfirm after verification is required to hold the 8 bytes it is read as, which the source does not check.
- ActiveServerSessionLogics.ActiveServerSessionLogic.Unwrap: the same two cases as UnwrapOutcome. A verdict frame of 1 to 10 bytes gets its first byte's verdict instead of the source's out-of-bounds reads, and a ConnectionConfirm shorter than 8 bytes is excluded.
- AsyncSessions.AfterFixedTick: `_keep_alive_frame_count` is a 4-byte `int` (`basic_async_session.h:128`), but `fixed_tick` passes it as a `uint64_t*` (`basic_async_session.cpp:269`), so each tick reads and writes 8 bytes. The model keeps the counter as a clean 64-bit value. It does not model the 4 bytes after the field that the access also touches.
- AsyncSessions.BasicAsyncSession.TickFrameEffective: the counter is a clean 64-bit value, and the interval is required to lie between 1 and the precision, for the same reasons as AfterFixedTick and AfterStartTick.
- AsyncSessions.TickStep: the counter is a clean 64-bit value, and the interval is required to lie between 1 and the precision, for the same reasons as AfterFixedTick and AfterStartTick.
- AsyncSessions.AfterStartTick: the interval is required to lie between 1 and KEEP_ALIVE_PRECISION ms. `start_tick` takes it from the configuration unchecked (`proxy_manager.cpp:65-66`). An interval of 0 divides by zero in `is_tick_frame_effective` (`basic_async_session.h:106-112`). One above the precision makes `precision / tick` 0, and the modulo then divides by zero. The model excludes both.
- AsyncSessions.AfterFixedTick: the same interval range is required, for the same reason as AfterStartTick.
- AsyncSessions.AfterTickTimer: the same interval range is required, for the same reason as AfterStartTick.
- AsyncSessions.AfterTickTimerIntended: the same interval range is required, for the same reason as AfterStartTick.
- AsyncSessions.BasicAsyncSession.FixedTick: the same interval range is required, for the same reason as AfterStartTick.
- AsyncSessions.BasicAsyncSession.StartTick: the same interval range is required, for the same reason as AfterStartTick.

## Findings

| source | as written | input that shows it | evidently intended | confidence | as-written member | corrected member |
|---|---|---|---|---|---|---|
| AsioNet/AsioNet/parallel_core/SafeHashMap.hpp:91-105 | `erase` erases only when the key is absent, so nothing is ever erased | any key present in the map | the key is removed and true returned | not executed | SafeHashMaps.SafeHashMap.Erase | SafeHashMaps.SafeHashMap.EraseIntended |
| AsioNet/AsioNet/parallel_core/SafeHashMap.hpp:131-138 | `complex_operation` never calls its handler | any handler, such as the proxy's server search | the handler runs on the table | not executed | SafeHashMaps.SafeHashMap.ComplexOperation | SafeHashMaps.SafeHashMap.ComplexOperationIntended |
| AsioNet/AsioNet/proxy_manager.cpp:83-108 | the server search runs through `complex_operation`, so a client never finds its server | a client naming a registered server | the client is accepted and routed | not executed | ProxyManagers.NoClientEverVerified | ProxyManagers.ClientVerifiedWhenServerRegistered |
| AsioNet/AsioNet/proxy_manager.cpp:262-292 | `kick_server_peer` kicks nobody | any server type with live peers | every client routed to the type and every server of it is kicked | not executed | ProxyManagers.ProxyManager.KickServerPeer | ProxyManagers.ProxyManager.KickServerPeerIntended |
| AsioNet/AsioNet/proxy_manager.cpp:294-320 | the cleanup sweep changes no table | a closed session in the client table | closed sessions leave the tables | not executed | ProxyManagers.ProxyManager.CleanUpClosedSessions | ProxyManagers.ProxyManager.CleanUpClosedSessionsIntended |
| AsioNet/AsioNet/proxy_manager.cpp:187-189 | a promoted session stays in the unmanaged table | any successful authentication | the session moves to exactly one table | not executed | ProxyManagers.PromotionKeepsUnmanagedEntry | ProxyManagers.PromotionIntended |
| AsioNet/AsioNet/parallel_core/RingBuffer.h:78-82 | `empty(del)` is `count == del` under size_t arithmetic, so `tryReadShift` passes a skip larger than the queue | 2 bytes queued in a ring of 16, skip 5 | the skip is refused unless that many bytes are queued | not executed | ParallelRing.ReadShiftPastEndAsWritten | ParallelRing.TryReadShiftIntended |
| AsioNet/AsioNet/protocol.hpp:206-240 | the auth response reports `key_len + 10` bytes but writes `key_len + 8`, and unpacking takes `length - 11` key bytes | any key | the key and the link type round-trip | not executed | Protocol.AaaResponseRoundTripAsWritten | Protocol.AaaResponseRoundTripIntended |
| AsioNet/AsioNet/default_session_logic.cpp:135-150 | the echo frame announces two bytes more than are written | any verdict | the peer reads back exactly the response | not executed | DefaultSessionLogics.EchoReadBackAsWritten | DefaultSessionLogics.EchoReadBackIntended |
| AsioNet/AsioNet/session_logic.h:76-79 | `cal_server_uid` adds `platform[0]` in every round | platforms "ab" and "ac" | every character of the platform counts | not executed | SessionLogic.StrHashIgnoresLaterCharacters | SessionLogic.StrHashIntendedSeesLastCharacter |
| AsioNet/AsioNet/client_session_logic.cpp:34-65 | an uncompressed message is never copied into `ret_block` | any accepted message without the compressed flag | the message is delivered | not executed | ClientSessionLogics.PlainMessageLostAsWritten | ClientSessionLogics.ClientSessionLogic.UnwrapIntended |
| AsioNet/AsioNet/client_session_logic.cpp:128-131 | the forward moves the offset back four bytes without growing the length | any forwarded message | the server gets the uid and the whole message | not executed | ClientSessionLogics.ForwardDropsTail | ClientSessionLogics.ForwardedIntended |
| AsioNet/AsioNet/client_session_logic.cpp:136-157 | the kick sends the bare uid with no header | any kick | a framed Kick message carrying the uid | not executed | ClientSessionLogics.KickSendsBareUid | ClientSessionLogics.KickIntended |
| AsioNet/AsioNet/server_session_logic.cpp:51-70 | the broadcast never sets the buffers' lengths, so every send is empty | a broadcast to one client | each target receives the framed message | not executed | ServerSessionLogics.BroadcastSendsNothing | ServerSessionLogics.BroadcastIntendedVerifies |
| AsioNet/AsioNet/server_session_logic.cpp:107-112 | the confirm frame announces 19 payload bytes and carries 8 | any confirm | the header announces the 8 bytes sent | not executed | ServerSessionLogics.ConfirmLengthAsWritten | ServerSessionLogics.ConfirmIntended |
| AsioNet/AsioNet/buffer_read.hpp:31 | a buffer holding exactly one empty frame is not processed (`>` where `>=` is needed) | one 11-byte header announcing 0 bytes | the empty frame is delivered | not executed | BufferRead.LoneEmptyFrameHeldAsWritten | BufferRead.LoneEmptyFrameDeliveredIntended |
| AsioNet/AsioNet/basic_async_session.cpp:110 | the 64 KiB receive buffer cannot hold a header plus the largest payload the length field allows | a header announcing 0xFFFF bytes | every frame the header allows can complete | not executed | AsyncSessions.OversizedFrameNeverCompletesAsWritten | AsyncSessions.EveryFrameCompletesIntended |
| AsioNet/AsioNet/basic_async_session.cpp:267-276 | the tick handler re-arms the timer even when it fired because `close` cancelled it | a close while the tick timer is pending | a closed session stops ticking | not executed | AsyncSessions.TickSurvivesCloseAsWritten | AsyncSessions.TickStopsAfterCloseIntended |
| AsioNet/TestClient/active_server_session_logic.cpp:160-173 | `check_verify_res` records VERIFY_FAILED on success and success on failure | the gateway echoing EC_Success | the recorded state matches the verdict | not executed | ActiveServerSessionLogics.EchoedVerdictInvertedAsWritten | ActiveServerSessionLogics.EchoedVerdictKeptIntended |
| AsioNet/TestClient/active_server_session_mgr.cpp:101-118 | `pick_msg` reads a record header only when one is already cached | two records stored in the ring | records are read one after another | not executed | ActiveServerSessionMgrs.LaterRecordsNeverReadAsWritten | ActiveServerSessionMgrs.ActiveServerSessionMgr.PickMsgIntended |
| AsioNet/TestClient/active_server_session_mgr.cpp:84-94 | `broadcast` sets the length to the payload alone, so the uid list and the tail of the payload are cut off | a broadcast to one target | the count, the uids and the payload are all sent | not executed | ActiveServerSessionMgrs.ActiveServerSessionMgr.Broadcast | ActiveServerSessionMgrs.ActiveServerSessionMgr.BroadcastIntended |
| AsioNet/TestClient/inner_pair_session.cpp:96-114 | `pick_msg` returns false even after it has delivered a frame | one stored frame with a payload | the frame is delivered and true returned | not executed | InnerPairSessions.DeliveredButReportedFailedAsWritten | InnerPairSessions.DeliveredAndReportedIntended |
| CsNetwork/RingBuffer.cs:104-111 | the write index moves by the loop counter on every iteration, and the call always returns false | three bytes written to an empty ring of 8 | the bytes are stored in order and true returned | not executed | CsRingBuffers.WriteScattersAsWritten | CsRingBuffers.WriteKeptIntended |
| CsNetwork/BlockMalloc.cs:99-100 | the size table has 184 slots, but size 8192 falls in class 184 | filling the table reaches size 8065 | the table has 185 slots | not executed | BlockMallocs.SizeTableAsWritten | BlockMallocs.SizeTableIntended |
| CsNetwork/BlockMalloc.cs:104 | `_chacheMap` is an array of null stacks that nothing fills, so every pooled `Alloc` throws inside the spin lock's action, which logs it, and returns null | Alloc(16) on a new pool | each class has a stack and `Alloc` returns an array at least as large as asked | not executed | BlockMallocs.EmptyPoolAllocNullAsWritten | BlockMallocs.FreshPoolAllocIntended |
| CsNetwork/BlockMalloc.cs:58-65 | once the stacks exist, `Alloc` pops an empty stack and ignores a non-empty one | Free a block, then Alloc its size | the freed block is handed back | not executed | BlockMallocs.FreedBlockIgnoredAsWritten | BlockMallocs.FreedBlockReusedIntended |
| CsNetwork/NetworkManager.cs:88-104 | the batch copy starts at list index `i - totalLength`, mixing a byte count with an index, and the block that triggers a flush is never sent | two small blocks queued | every block is sent once, in order, in batches that fit a frame | not executed | NetworkManagers.SmallQueueThrowsAsWritten | NetworkManagers.BatchesKeepOrder |
| CsNetwork/SocketClient.cs:416-418 | `Recv` reads the header in host order, while `WrapSendData` writes it most significant byte first | a one-byte frame with sequence 1 | the header read back is the one written | not executed | SocketClients.HostOrderMisreadsWrappedHead | SocketClients.HeadRoundTrip |
