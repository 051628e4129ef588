# Fishnode network layer (L3) engine

A Dafny model of the network-layer engine of a fishnet node (`fishnode.c`,
built with `L3_IMPL`). The engine has four parts:

- The **duplicate-suppression table** (`hash_table`). It has 1024 bucket chains
  of entries keyed by (source address, 16-bit packet id), each holding the time
  it was recorded. `insert_entry` replaces the entry with the same key, or puts
  a new entry at the head of the chain. `get_timestamp` treats an entry older
  than 120 s as absent but never removes it.
- **Receive** (`my_fishnode_l3_receive`). It sends each inbound frame down one
  of three cases: local delivery, broadcast flood with duplicate suppression,
  or transit forwarding with the TTL lowered in the caller's buffer.
- **Send** (`my_fish_l3_send`). It normalises the TTL, builds the 14-byte
  packed header in front of a copy of the payload in a new buffer, and hands
  the frame to forward.
- **Forward** (`my_fish_l3_forward`). It checks TTL expiry and picks the next
  hop: broadcast, the node itself, or a longest-prefix lookup. It ends in
  exactly one of: FCMP error 1 (TTL expired), FCMP error 2 (no route), or one
  link-layer send.

Layout of the project:

- `fish.dfy` (module `Fish`): the fixed-width integer types, `MTU`, `MAX_TTL`,
  `ALL_NEIGHBORS`, htonl, the 32-bit memory codec, and `FNL2_EQ`/`FNL2_VALID`.
- `header.dfy` (module `Header`): the packed `struct L3_hdr` and its 16-bit
  suppression key.
- `suppression.dfy` (module `Suppression`): pure functions over a sequence of
  chains, plus the class `SuppressionTable` over an `array<seq<Entry>>`. Its
  `Insert` and `GetTimestamp` walk a chain in a loop, as the C code does, and
  are proved equal to those functions.
- `l3.dfy` (module `L3`): the engine. Every call to a collaborator comes back
  as an `Effect`, in call order: `L4Receive`, `L3Forward`, `L2Send` or
  `FcmpResponse`. That makes "exactly once" and "nothing else" statable.
  `Forward` is a function. `Send` fills a new array field by field. `Receive`
  lowers the TTL byte of the caller's array and updates the table in place.
  Both methods are proved against pure specification functions (`SendFrame`,
  `ReceiveAsWritten`), and the lemmas are about those functions.

Assumptions:

- The host is little-endian. Multi-byte header fields are stored in host
  order with no conversion, as the C code does.
- The node's own address (`fish_getaddress`), the clock (`time(NULL)`) and
  the forwarding table's `longest_prefix_match` are parameters.
- A result of 0 from `longest_prefix_match` means "no route".
- Every frame length is the length of the byte sequence or array.

Receive follows the code, not the documentation:

- The code lowers `header->ttl` in the caller's buffer. The documentation says
  both that only the TTL may be modified (fish.h:428-429) and that the frame
  may not be modified at all (fish.h:452).
- The code's broadcast test is the inverse of the documented one (see
  Findings). `ReceiveAsWritten` models the code. `ReceiveIntended` models the
  documented behaviour and carries the flood-control properties.

## Model

| member | source | states |
|---|---|---|
| `Fish.Le32RoundTrip` | fishnode.h:30-32 | reading a 32-bit field back from its four stored bytes gives the stored value |
| `Fish.FromLe32RoundTrip` | fishnode.h:30-32 | storing the value read from any four bytes rewrites exactly those bytes |
| `Fish.Le32Injective` | fishnode.h:30-32 | two 32-bit values are equal iff their stored bytes are equal |
| `Fish.Htonl` | fish.h:70 | htonl on a little-endian host reverses the four stored bytes |
| `Fish.AllNeighborsUnaffectedByHtonl` | fish.h:70 | ALL_NEIGHBORS = 0xFFFFFFFF is unchanged by htonl |
| `Fish.MemEq` | fish.h:54 | memcmp over n bytes is zero iff the first n bytes of both buffers are equal |
| `Fish.L2Eq` | fish.h:54 | FNL2_EQ holds iff all six L2 address bytes are equal, i.e. iff the addresses are equal |
| `Fish.L2Valid` | fish.h:61-63 | FNL2_VALID holds iff some byte is nonzero, i.e. iff the address is not all zeros |
| `Header.Encode` | fishnode.h:27-33 | the packed header is exactly 14 bytes: ttl at 0, protocol at 1, packet_id at 2-5, src at 6-9, dst at 10-13 |
| `Header.DecodeEncode` | fishnode.h:27-33 | decoding an encoded header followed by a payload gives back every field, and the payload follows untouched |
| `Header.EncodeDecode` | fishnode.h:27-33 | every frame of 14 or more bytes is its decoded header re-encoded, followed by its payload |
| `Header.HeaderOf` | fishnode.c:171-172 | the header read through the `struct L3_hdr *` cast is the one whose encoding is exactly the frame's first 14 bytes |
| `Header.SuppressionKey` | fishnode.h:38-43 | the key's address is stored as the header's src bytes, and its 16-bit id is the low two stored bytes of the header's packet_id, so the 32-bit id is cut to the 16-bit entry field |
| `Header.KeyIgnoresHighIdBits` | fishnode.h:49-50 | header ids that agree in their low 16 bits give the same key |
| `Header.KeyCollisionExample` | fishnode.h:30 | the distinct ids 0x00010007 and 0x00000007 share one key |
| `Suppression.Hash` | fishnode.c:103-105 | hash_function always yields a bucket index below 1024 |
| `Suppression.Find` | fishnode.c:154-164 | the chain walk finds the first entry with the key, or reports that none has it |
| `Suppression.FindFirstMatch` | fishnode.c:127-128 | any position holding the key with no earlier match is the position the walk stops at |
| `Suppression.Timestamp` | fishnode.c:150-167 | when the chain has an entry with the key, the result is the first such entry's timestamp if it is at most 120 s old and -1 otherwise; with no such entry the result is -1; any result other than -1 is the timestamp of an entry with the key, at most 120 s old |
| `Suppression.ChainInsert` | fishnode.c:119-146 | an existing key is replaced in place, with the chain's length and its other entries kept; a new key is put at the head, so the chain grows by one |
| `Suppression.Inserted` | fishnode.c:108-147 | insert_entry changes only the key's own bucket and keeps 1024 buckets |
| `Suppression.ChainInsertUnique` | fishnode.c:127-145 | inserting keeps the keys of a chain unique |
| `Suppression.InsertedWellFormed` | fishnode.c:108-147 | inserting keeps every entry in its own bucket and the keys unique per chain |
| `Suppression.InsertThenLookup` | fishnode.c:108-167 | after insert at now, get_timestamp of the key at any t with t - now <= 120 returns now, and exactly one entry of the chain has the key |
| `Suppression.ChainInsertKeepsOtherKeys` | fishnode.c:127-145 | after inserting one key, the first entry matching any other key is the same entry as before (on a prepend it sits one position later) |
| `Suppression.InsertKeepsOtherKeys` | fishnode.c:108-147 | inserting one key leaves get_timestamp of every other key unchanged at every time |
| `Suppression.EmptyFindsNothing` | fishnode.c:100 | in the zero-initialised table every lookup returns -1 |
| `Suppression.SuppressionTable.constructor` | fishnode.c:100 | the global table starts as 1024 empty chains |
| `Suppression.SuppressionTable.Insert` | fishnode.c:108-147 | the in-place chain walk leaves the table equal to `Inserted` of the old table, still well formed |
| `Suppression.SuppressionTable.GetTimestamp` | fishnode.c:150-167 | the chain walk returns `Timestamp` of the table and changes nothing |
| `L3.NextHop` | fishnode.c:244-252 | a frame for the node goes to the node; otherwise a broadcast goes to 0xFFFFFFFF; otherwise the hop is the lookup's answer |
| `L3.Forward` | fishnode.c:233-262 | forward makes exactly one call: an FCMP error or an L2 send. It passes the frame unchanged, and never sends to next hop 0 or with a tag other than 1 |
| `L3.ForwardTtlExpired` | fishnode.c:239-242 | ttl 0 with a destination other than the node gives only FCMP error 1 |
| `L3.ForwardBroadcast` | fishnode.c:244-248 | a broadcast with ttl > 0 gives one L2 send to 0xFFFFFFFF |
| `L3.ForwardToSelf` | fishnode.c:250-257 | a frame for the node gives one L2 send to the node itself, even at ttl 0; if the node's address is 0, it gives FCMP error 2 |
| `L3.ForwardRouted` | fishnode.c:244-259 | any other destination with ttl > 0 gives FCMP error 2 when the lookup answers 0, and otherwise one L2 send with tag 1 to the looked-up hop |
| `L3.NormaliseTtl` | fishnode.c:205-208 | a requested ttl of 0 or above 64 becomes 64; any other is kept, so the result lies in 1..64 |
| `L3.SendFrame` | fishnode.c:212-222 | the frame is 14 + len bytes; its header has the normalised ttl, the protocol, src = own and dst; bytes 2-5 (the packet id) are the buffer's prior bytes 2-5; the payload follows |
| `L3.StoreU32` | fishnode.c:216-217 | a 32-bit field store writes its four bytes at the field's offset and nothing else |
| `L3.Send` | fishnode.c:203-231 | send makes exactly one forward call. Its frame is 14 + len bytes: a header with the normalised ttl, protocol, src = own and dst, then a copy of the payload. The packet id is whatever the new buffer held |
| `L3.SendPacketIdUnset` | fishnode.c:214-219 | two sends that differ only in the new buffer's prior contents carry equal packet ids iff bytes 2-5 of those contents are equal |
| `L3.SendIntendedFrame` | fish.h:650-652 | the intended frame carries the id from fish_next_pktid, with the rest of the header and the payload as in send |
| `L3.SendThenForward` | fishnode.c:224-259 | a sent frame is never reported as TTL-expired: it goes to L2 towards the next hop, or to FCMP error 2 when there is none |
| `L3.DecrementTtl` | fishnode.c:186 | `header->ttl--` lowers byte 0 by one and leaves every other byte as it was |
| `L3.SeenRecently` | fishnode.c:181-183 | true only when the first entry with the frame's (src, id mod 2^16) key is at most 120 s old, and true whenever it is and its timestamp is not -1 |
| `L3.Dispatch` | fishnode.c:170-201 | receive keeps the frame's length and the table's 1024 buckets |
| `L3.ReceiveAsWritten` | fishnode.c:170-201 | a broadcast not for the node whose key was not seen recently is dropped with no effect and no table change; the table changes only when the key was seen recently |
| `L3.ReceiveIntended` | fish.h:439-447 | on local and transit frames it agrees with the code; a broadcast seen recently is dropped with the table unchanged; an unseen one has its key recorded at `now` |
| `L3.Receive` | fishnode.c:170-201 | the in-place receive leaves the caller's frame, the calls made and the table equal to `ReceiveAsWritten` of the old frame and table, still well formed |
| `L3.ReceiveLocal` | fishnode.c:175-179 | dst == own gives exactly one delivery of bytes 14.. with the header's protocol and src, no forward and no table change |
| `L3.ReceiveTransit` | fishnode.c:194-199 | transit with ttl > 1 gives exactly one forward of the frame with ttl - 1 and no delivery; with ttl <= 1 there is no effect at all |
| `L3.ReceiveBroadcastAsWritten` | fishnode.c:180-193 | a broadcast whose key is absent or expired has no effect and no insert. A key seen recently is re-inserted, and with ttl > 1 the frame is delivered and then forwarded with ttl - 1 |
| `L3.ReceiveOnlyLowersTtl` | fishnode.c:186 | receive changes no byte but the ttl, lowers it by at most one, and forwards exactly the frame it leaves behind |
| `L3.ReceiveKeepsTableWellFormed` | fishnode.c:180-193 | receive keeps the table well formed |
| `L3.ReceiveKeysOnLow16Bits` | fishnode.c:181 | frames that differ only in the upper 16 bits of the packet id meet the same entry and leave the same table |
| `L3.AsWrittenKeepsEmptyTableEmpty` | fishnode.c:183-184 | as written, a receive on the empty table inserts nothing, and a broadcast not addressed to the node has no effect |
| `L3.AsWrittenTableStaysEmpty` | fishnode.c:183-184 | as written, starting from the empty table, no sequence of receives ever adds an entry |
| `L3.AsWrittenDropsFirstSighting` | fishnode.c:183 | on the empty table, a broadcast with ttl 5 has no effect as written, but as documented its payload is delivered and the frame is forwarded with ttl 4 |
| `L3.IntendedFirstSighting` | fish.h:446-447 | documented receive: an unseen broadcast is recorded, and with ttl > 1 it is delivered once and forwarded once with ttl - 1 |
| `L3.IntendedDropsDuplicate` | fish.h:441-443 | documented receive: a broadcast with the same key within 120 s of the first sighting is dropped, with no delivery, no forward, no FCMP and no table change |
| `L3.IntendedAcceptsAfterExpiry` | fishnode.c:157 | documented receive: more than 120 s after the first sighting, the same broadcast counts as fresh and has the same effects again |

## Left out

- `main`, `sigint_handler`, `keyboard_callback` and `print_route`: signal
  handling, console I/O and the event-loop bootstrap.
- The L2/ARP stubs under `L2_IMPL` are not compiled and have empty bodies.
- The forwarding-table stubs are not installed. `longest_prefix_match` is the
  parameter `lpm`, and the forwarding table behind it is not part of this model.
- `in_cksum`, the library's FCMP message construction, and the rest of the
  library (network join, timers, debug output) are not part of this model.
- `malloc` failure and `free` are not modelled. Send's new buffer is a fresh
  array whose prior contents are the parameter `uninit`. Nodes of a chain are
  entries in a sequence, so the pointer-level unlink, `malloc` and `free` of
  a replaced entry are not modelled.
- `time(NULL)` is read once per receive, as the parameter `now`. The C code
  reads the clock separately in `get_timestamp` and `insert_entry`. `time_t`
  is an unbounded integer.
- L3.Receive: requires a frame of at least 14 bytes. The C code reads the
  header without checking the length, which is undefined behaviour for a
  shorter frame. Receive also ignores its `protocol` argument, which the model
  therefore omits. The `len` argument is taken to be the buffer's length.
- L3.Forward: requires a frame of at least 14 bytes, for the same reason: the
  C code reads the header's ttl and dst without checking the length.
- `MTU` is declared but no operation of the core uses it.

## Findings

| source | as written | input that shows it | evidently intended | confidence | as-written member | corrected member |
|---|---|---|---|---|---|---|
| fishnode.c:183 | the broadcast branch records, delivers and forwards only when `get_timestamp` FOUND the key (`timestamp != -1`). Since `insert_entry` is reached only from there, the table never gains an entry and no broadcast is ever delivered | empty table, own address 2, broadcast frame with ttl 5, protocol 7, id 1, src 3, at time 1000: no effect at all | test `timestamp == -1`: drop a broadcast seen within 120 s; otherwise record it, then deliver and forward it with ttl - 1 (fish.h:441-447) | high (not executed) | `L3.AsWrittenDropsFirstSighting` | `L3.ReceiveIntended` |
| fishnode.c:214-219 | send never writes `header->packet_id`, so the id is whatever the new buffer held | two new buffers that differ in bytes 2-5 give different ids for the same send | set the id from `fish_next_pktid()` (fish.h:650-652) | high (not executed) | `L3.SendPacketIdUnset` | `L3.SendIntendedFrame` |

The corrected receive, `L3.ReceiveIntended`, is proved by
`L3.IntendedFirstSighting`, `L3.IntendedDropsDuplicate` and
`L3.IntendedAcceptsAfterExpiry`. The corrected send frame carries the given id
in its ensures clause.
