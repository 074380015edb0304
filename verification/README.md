# Verified models of the RFC 5444 stack and AODVv2

This project models four parts of an operating system's mesh networking code and proves what they keep:

* **The threaded AVL tree** of the OONF API (`OonfList`, `AvlShape`, `AvlRebalance`, `Avl`). Nodes are heap objects with
  parent pointers, cached balances and a circular doubly linked list through all of them; equal keys are followers in the
  list. The tree and the list are tied to a ghost tree and a ghost sequence. The comparator is any total preorder.
* **The RFC 5444 packet format, writer against reader.** `TlvFormat`, `TlvWriter` and `TlvBlock` are TLVs and TLV blocks;
  `AddressTlvs`, `AddressTlvWriter` and `AddressDecode` merge the TLVs of addresses into index ranges and multivalues and take
  them apart again; `Compression`, `CompressionCosts`, `CompressionBound`, `AddressBlocks` and `AddressBlockWriter` choose and
  write address blocks, and tell how many bytes they take; `MessageFormat`, `MessageWriter`, `MessageReader`,
  `MessageRoundTrip` and `PacketWriter` are messages and packets; `AddressSession` collects the addresses of a message, and
  `Schedule` hands TLVs to consumers. `WireFormat` says in numbers what stands where, for writer and reader, and `RreqPacket`
  follows one RREQ through both. `Bytes` has what they share.
* **Number codecs** (`NumberCodecs`): time codes of section 5 of RFC 5497, metric codes of section 6.2 of RFC 7181.
* **AODVv2 route discovery** (`McMsg`, `Flood`, `Discovery`): redundant messages, hop limits, every run of a network, and how
  far a discovery gets.

`Basics` has a few definitions for all of them.

## How to read it

What the code does step by step is a method on a class or an array, proved against a function on values; the lemmas then say
what that function means. Output into a byte buffer is described by `Bytes.Output(now, was, start, end, out)`: the buffer is
what it was, with `out` written from `start` to `end`. Ghost parameters carry `was`, `start` and `out` through the writers.

The heart of the packet format is `MessageRoundTrip.ReadMessage`: it holds for whatever `MessageWriter.CreateMessage` makes
(`MessageWriter.IsMessage`), and `CreateMessage` says when it makes a message. Its parts are `AddressDecode.DecodeBlock` (TLVs
of addresses), `AddressBlocks.ReadAddrBlock` (heads, tails and prefix lengths), `TlvBlock.ReadTlvBlock` (message TLVs) and
`Compression.LinkBlocks` (the blocks are a partition of the addresses). The reader keeps its TLVs in the very tree that `Avl`
is about. `Schedule.ConsumerGets` leads on to the consumers.

The constants and flags by which writer and reader are defined are fixed in `WireFormat` from outside: its lemmas give every
bit and every place as a number, for all headers, TLVs and address blocks, and every decision of the reader for all byte
strings. In the same way `McMsg.UnknownExact`, `McMsg.KnownExact` and `Flood.ReactionExact` say on the fields of messages and
entries what a router does.

The addresses of a message are as long as the message says, at most 255, with prefix lengths below 255, and neighbours differ
in some byte (`Compression.Input`; `AddressSession.InputExact` says when a session has such addresses); every address has at
most one TLV of a full type (`AddressTlvs.Address.Valid`), which `AddressSession` provides. The message buffer is smaller than
64K.

## What turned out otherwise than the documentation says

* The reader takes a remainder by 0 for a multivalue TLV whose range of addresses has a number that is 0 in 8 bits. In an
  address TLV block nothing asks for index1 <= index2 (`TlvFormat.DividesInAddressBlock`), and a message TLV block has the
  range 0 to 255 (`TlvFormat.DividesInMessageBlock`). The exact condition is in `TlvFormat.DividesExact`.
* The reader reads one byte behind the buffer before it gives up, for an address block with a single prefix length whose mid
  parts end with the buffer: `MessageReader.ReadsPastPacket`. The exact condition is in `AddressBlocks.ReadsPastExact`.
* The reader accepts address blocks whose head and tail together are longer than an address. The length of the mid part then
  wraps in 8 bits, and copying it for an address consumer runs past the address buffer: `AddressBlocks.Overruns` and
  `MessageReader.CopiesPastPacket`, or past the address only: `AddressBlocks.Spills`. The exact conditions on the two length
  bytes are in `AddressBlocks.MidExact`, and `MessageReader.AssembleAddresses` assembles every other block.
* `MessageReader.PacketFaults` lifts these three conditions to packets, and the status of `MessageReader.HandlePacket` tells
  which of them is met. They are about bytes that are divided by, read and written; other things that C leaves open are listed
  under "Left out".
* The address blocks of a fragment that the compression session accepts need not fit into the message, and the code does not
  look again: the cost of several prefix lengths is subtracted the wrong way round (`MessageWriter.Underestimates`; the
  message is then longer than its limit, or ends with `NoRoom` where it would pass the end of the buffer). They do fit if all
  addresses have one prefix length and no value needs a longer length field when it is merged
  (`CompressionBound.OnePrefixLength`, `CompressionBound.ShortValues`), and also if there is room for a block for every
  address (`CompressionCosts.CostUpTo`). Long values can be undercounted too (`MessageWriter.LongValuesUnderestimated`);
  `CompressionBound.BlockExact` says exactly which blocks of one prefix length are.
* The guard of `_close_addrblock` asks for a common head longer than the address, which there never is. For neighbours with
  equal bytes and different prefix lengths the common head is as long as the address, and the code reads behind the strategies
  of the session: `Compression.EqualBytesPassGuard`, with the exact condition in `Compression.CommonWhole`.
* A consumer entry does not get the TLVs of its types that an entry before it reaches up to: `Schedule.Overlapping`, with the
  exact condition in `Schedule.GetsAllExact`.
* A mandatory consumer entry fails also when the address has its TLV, if another TLV of the type in the block leaves the
  address out: `Schedule.MandatoryPresentAndFailed`, with the exact condition in `Schedule.MandatoryExact`.
* Not every time code survives decoding and encoding: `NumberCodecs.TimeUnstable`, with the exact condition in
  `NumberCodecs.TimeStable`.
* Sequence numbers of RREQs are read as one byte, the first in memory and so the low one on a little-endian machine. Exactly
  the numbers from 1 to 255 can arrive as they were sent, and a number with a low byte of 0 is dropped by every neighbour:
  `Flood.LowByte`, with examples in `Flood.LowByteLost`.
* A duplicate RREQ is not suppressed when the set of multicast messages was full: `McMsg.FullSetForgets`, with the exact
  condition in `McMsg.DuplicateSuppressed` and `McMsg.DuplicateSuppressedAfter`.
* A RREQ travels up to 254 hops, but its RREP starts with the hops that are left, and so a discovery completes only up to 127
  hops: `Discovery.TooFar` for all networks and runs, and `Discovery.DiscoveryCompletes` for the bound being met.
* A new multicast entry does not store the SeqNoRtr of its message, so messages with one never find their entry again
  (`McMsg.SeqNoRtrForgotten`); the lemmas about single entries are for messages without one.

## Model

| member | source | states |
|---|---|---|
| Avl.Insert | sys/oonf_api/common/avl.c:214-282 | from any well-formed tree to a well-formed tree whose list gained exactly the new node, in its slot: by key order, and directly behind the tree node of an equal key, in front of older followers; an equal key is refused, with nothing changed, exactly if duplicates are off; the follower flag is set exactly for an equal key; no rotation, one single or one double rotation is done |
| Avl.Remove | sys/oonf_api/common/avl.c:290-332 | for every member (leaf, one child, two children, replaced by its first follower, or a follower): a well-formed tree whose list is the old one without exactly this node, whose own list pointers are cleared |
| Avl.Find | sys/oonf_api/common/avl.c:91-104 | a tree node with an equal key, or NULL exactly when no node has one; a search of k levels needs a tree of at least Fib(k + 2) - 1 tree nodes, so the number of calls is logarithmic |
| Avl.FindRec | sys/oonf_api/common/avl.c:344-365 | the node with the key, or the one with a free side on which the key would hang, with the comparison result; one call per level at most |
| Avl.FindLessEqual | sys/oonf_api/common/avl.c:112-146 | the last node of the list, followers included, whose key is not above the given one; NULL exactly when there is none; the walk ends |
| Avl.FindGreaterEqual | sys/oonf_api/common/avl.c:154-188 | the first node of the list whose key is not below the given one; NULL exactly when there is none; the walk ends |
| Avl.FindLast | sys/oonf_api/common/avl.c:194-204 | the last node in the list of a run of equal keys |
| Avl.InsertLeft | sys/oonf_api/common/avl.c:250-272 | hanging a new node to the left keeps the tree well-formed and puts the node before its parent in the list |
| Avl.InsertRight | sys/oonf_api/common/avl.c:257-280 | hanging a new node to the right keeps the tree well-formed and puts the node behind all followers of its parent |
| Avl.InsertFollower | sys/oonf_api/common/avl.c:237-246 | an equal key becomes a follower directly behind its tree node, and the tree stays as it is |
| Avl.Promote | sys/oonf_api/common/avl.c:296-325 | the first follower takes over the place, the pointers, the balance and the other followers of its tree node |
| Avl.EmptyTree | sys/oonf_api/common/avl.c:75-82 | avl_init makes a well-formed empty tree |
| Avl.ValidPointers | sys/oonf_api/common/avl.c:373-507 | in every well-formed tree parent and child pointers agree, only the root has no parent, and every cached balance is -1, 0 or 1 |
| Avl.ValidList | sys/oonf_api/common/list.h:97-162 | in every well-formed tree the list is in key order, next and prev undo each other, and count is the length of the list modulo 2^32 |
| Avl.FewCalls | sys/oonf_api/common/avl.c:344-365 | a search of k calls needs Fib(k + 2) - 1 tree nodes |
| AvlShape.HeightBound | sys/oonf_api/common/avl.c:344-365 | an AVL tree of height h has at least Fib(h + 2) - 1 tree nodes |
| AvlRebalance.AvlTree.constructor | sys/oonf_api/common/avl.c:75-82 | a fresh head alone in its ring, no root, count 0 |
| AvlRebalance.AvlTree.RotateRight | sys/oonf_api/common/avl.c:373-413 | the pointers and both cached balances after the rotation are those of the rotated tree, for all balances in -2..2; the in-order walk does not change, and the history of rotations gains this one |
| AvlRebalance.AvlTree.RotateLeft | sys/oonf_api/common/avl.c:418-458 | the mirror image of RotateRight |
| AvlRebalance.AvlTree.PostInsert | sys/oonf_api/common/avl.c:463-507 | a subtree that grew by one level is absorbed on the way to the root: the whole tree is AVL again with right cached balances, the walk is the same, and no rotation, one single or one double rotation is done, as the history of rotations of the tree says |
| AvlRebalance.AvlTree.AttachLeft | sys/oonf_api/common/avl.c:250-272 | a new left child and its rebalancing add exactly the node to the walk |
| AvlRebalance.AvlTree.AttachRight | sys/oonf_api/common/avl.c:257-280 | a new right child and its rebalancing add exactly the node to the walk |
| AvlRebalance.AvlTree.PostRemove | sys/oonf_api/common/avl.c:554-612 | a subtree that shrank by one level is absorbed on the way to the root: the whole tree is AVL again, with the same walk |
| AvlRebalance.AvlTree.LocalMin | sys/oonf_api/common/avl.c:619-625 | the first node of a subtree in key order |
| AvlRebalance.AvlTree.RemoveWorker | sys/oonf_api/common/avl.c:644-777 | taking a tree node out, in all four cases, leaves an AVL tree whose walk is the old one without it |
| AvlRebalance.AvlTree.Substitute | sys/oonf_api/common/avl.c:296-325 | a node put into the place of another: the tree is the same with the other group there |
| OonfList.ListAdd | sys/oonf_api/common/list.h:97-102 | between two neighbours at position i the ring gains exactly the new entity there |
| OonfList.ListRemove | sys/oonf_api/common/list.h:150-163 | the ring loses exactly the entity, whose pointers are cleared |
| OonfList.AddHead | sys/oonf_api/common/list.h:110-112 | the new entity is first |
| OonfList.AddTail | sys/oonf_api/common/list.h:120-122 | the new entity is last |
| OonfList.IsEmpty | sys/oonf_api/common/list.h:171-173 | true exactly for a ring of the head alone |
| OonfList.Merge | sys/oonf_api/common/list.h:215-227 | the second list is appended to the first and is empty afterwards |
| TlvWriter.WriteTlv | sys/oonf_api/rfc5444/rfc5444_tlv_writer.c:193-232 | the bytes of the TLV are written at the position and nowhere else |
| TlvWriter.SizeIsLength | sys/oonf_api/rfc5444/rfc5444_tlv_writer.c:165-180 | _calc_tlv_size is the number of bytes that _write_tlv writes |
| TlvWriter.Data.Add | sys/oonf_api/rfc5444/rfc5444_tlv_writer.c:90-105 | the TLV is appended to the block, or there is no room below max and nothing changes; exact condition |
| TlvWriter.Data.Allocate | sys/oonf_api/rfc5444/rfc5444_tlv_writer.c:116-128 | space is reserved exactly if it stays below max |
| TlvWriter.Data.Set | sys/oonf_api/rfc5444/rfc5444_tlv_writer.c:142-157 | the TLV is appended to those that were set, exactly if the reserved space suffices; added TLVs keep their bytes, and set stays within allocated |
| TlvWriter.Data.ResetSet | sys/oonf_api/rfc5444/rfc5444_msg_generator.c:1433-1434 | forgetting the optional TLVs keeps the added ones |
| TlvFormat.ParseTlv | sys/oonf_api/rfc5444/rfc5444_reader.c:446-546 | an accepted TLV has at least two bytes, ends inside the buffer, covers addresses of the block, and its values fill its range |
| TlvFormat.DividesExact | sys/oonf_api/rfc5444/rfc5444_reader.c:530-546 | the code takes a remainder by 0 exactly for a multivalue TLV with a value and with index1 = (index2 + 1) mod 256 |
| TlvFormat.DividesInAddressBlock | sys/oonf_api/rfc5444/rfc5444_reader.c:530-546 | the TLV 7, 0x34, 5, 4, 1, 9 in a block of ten addresses does so |
| TlvFormat.DividesInMessageBlock | sys/oonf_api/rfc5444/rfc5444_reader.c:530-546 | the TLV 7, 0x14, 1, 9 in a message TLV block does so |
| TlvFormat.ReadTlv | sys/oonf_api/rfc5444/rfc5444_reader.c:446-546 | _parse_tlv undoes the writer for every type, extension, index range, value and multivalue, wherever the bytes stand |
| TlvBlock.ParseTlvs | sys/oonf_api/rfc5444/rfc5444_reader.c:579-602 | every TLV of a block takes at least two bytes and the cursor never passes the end of the message |
| TlvBlock.ParseTlvBlock | sys/oonf_api/rfc5444/rfc5444_reader.c:558-609 | the loop ends on every byte string; it divides by 0 exactly if one of the TLVs that it reaches does, and otherwise leaves the TLVs in the AVL tree, in the order of repeated avl_insert, with the cursor behind them, or reports the first error and moves the cursor to the end |
| TlvBlock.BlockDivides | sys/oonf_api/rfc5444/rfc5444_reader.c:558-609 | a TLV block divides by 0 exactly if a TLV that is reached in it does |
| TlvBlock.TlvTree.Walk | sys/oonf_api/rfc5444/rfc5444_reader.c:654-671 | walking the list of the tree from its head meets the TLVs in order |
| TlvBlock.TlvTree.Insert | sys/oonf_api/rfc5444/rfc5444_reader.c:596-601 | avl_insert of a parsed TLV into the real tree is insertion at its slot in the sequence of TLVs |
| TlvBlock.InsertAllFacts | sys/oonf_api/rfc5444/rfc5444_reader.c:558-609 | the tree of a block holds the same multiset of TLVs as the block, ascending by 256 * type + extension |
| TlvBlock.ReadTlvBlock | sys/oonf_api/rfc5444/rfc5444_reader.c:558-609 | parsing undoes writing for every sequence of TLVs with its length field |
| AddressTlvs.RunsFaithful | sys/oonf_api/rfc5444/rfc5444_msg_generator.c:1147-1205 | merging loses nothing, invents nothing and merges all that may be merged: every TLV of every address of the block is in exactly one run of consecutive addresses with values of one length, and adjacent runs of a type differ in length |
| AddressTlvs.FeedInv | sys/oonf_api/rfc5444/rfc5444_msg_generator.c:1165-1199 | every step of the loop keeps that, for what was seen so far |
| AddressTlvs.RunRead | sys/oonf_api/rfc5444/rfc5444_reader.c:467-545 | the reader finds the values of a run at the addresses of the run and nowhere else, for no index, one index, an index range and multivalues |
| AddressTlvWriter.WriteAddressTlv | sys/oonf_api/rfc5444/rfc5444_msg_generator.c:1068-1136 | the bytes of the run: type, flags patched in place, index fields, the 16 bit length of all values, and one value or all of them |
| AddressTlvWriter.SameStill | sys/oonf_api/rfc5444/rfc5444_msg_generator.c:920-934 | the comparison cached by _compress_address tells whether all values of a run are equal |
| AddressTlvWriter.FeedStep | sys/oonf_api/rfc5444/rfc5444_msg_generator.c:1168-1195 | one TLV ends, extends or begins the run of its type, and a run that ends is written |
| AddressTlvWriter.WriteAddressTlvs | sys/oonf_api/rfc5444/rfc5444_msg_generator.c:1147-1205 | the buffer gains exactly the TLVs of the runs, in the order in which they end |
| AddressDecode.DecodeBlock | sys/oonf_api/rfc5444/rfc5444_reader.c:654-671 | for every block of addresses the TLV tree of the reader gives every address exactly its own TLVs: types, values and order |
| AddressDecode.SameClash | sys/oonf_api/rfc5444/rfc5444_reader.c:596-601 | two TLVs of a type for one address are in the tree exactly if they are in the block |
| Compression.CloseAddrBlock | sys/oonf_api/rfc5444/rfc5444_msg_generator.c:806-838 | the block that ends with the last address gets the first of the cheapest strategies with at least the common head; all strategies with longer heads continue from its cost; nothing else changes |
| Compression.CommonWhole | sys/oonf_api/rfc5444/rfc5444_msg_generator.c:808-816 | the common head is as long as the address exactly for equal bytes, so that the test for a longer one never holds |
| Compression.EqualBytesPassGuard | sys/oonf_api/rfc5444/rfc5444_msg_generator.c:808-816 | two prefixes of one network with different lengths reach the strategies behind the last one |
| Compression.CompressAddress | sys/oonf_api/rfc5444/rfc5444_msg_generator.c:850-1066 | the exact new state of strategies, counters and blocks; for every i the addresses from acs[i].ptr on share their first i bytes, multiplen is false only if they share one prefix length, and every earlier address has the start of a block with a common head |
| Compression.AdvanceAll | sys/oonf_api/rfc5444/rfc5444_msg_generator.c:936-1061 | the exact new state of every strategy and of the TLV counters, from the costs of continuing and of a new block |
| Compression.AdvanceFits | sys/oonf_api/rfc5444/rfc5444_msg_generator.c:1020-1044 | a strategy continues only with a shared head, and knows when prefix lengths differ |
| Compression.FindBest | sys/oonf_api/rfc5444/rfc5444_msg_generator.c:324-336 | the first of the cheapest strategies within the message size and 255 addresses, or none exactly if there is none |
| Compression.AddCosts | sys/oonf_api/rfc5444/rfc5444_msg_generator.c:369-376 | the cost of the address becomes part of the totals |
| Compression.CompressAll | sys/oonf_api/rfc5444/rfc5444_msg_generator.c:286-391 | the loop stops at the first address that no strategy can afford; the outcome is one fragment exactly if there is none, and MTU_TOO_SMALL exactly if all addresses before it are mandatory; in one fragment every address has the block that the session gives it, with a common head |
| Compression.LinkBlocks | sys/oonf_api/rfc5444/rfc5444_msg_generator.c:1455-1472 | following _block_start back from the last address splits the list into contiguous disjoint blocks, each with a truly common head and one prefix length unless marked otherwise, and the first address of every block then points to its last; the consistency assertion of the code holds |
| CompressionCosts.NewCostExact | sys/oonf_api/rfc5444/rfc5444_msg_generator.c:946-996 | the cost of a new block is the exact size of a block with this address alone, plus one byte for a head and two for the indices of every TLV |
| CompressionCosts.RoomForAll | sys/oonf_api/rfc5444/rfc5444_msg_generator.c:1020-1040 | if the space for a block for every address is there, the session finds room for every address: its strategy with the longest head never costs more |
| CompressionCosts.BlockAtMost | sys/oonf_api/rfc5444/rfc5444_msg_generator.c:1213-1362 | a block of addresses with its merged TLVs never takes more bytes than a block for every address |
| CompressionCosts.FeedCost | sys/oonf_api/rfc5444/rfc5444_msg_generator.c:1168-1195 | however a TLV is merged into the runs, it adds its own cost to theirs |
| CompressionBound.ExtendsExact | sys/oonf_api/rfc5444/rfc5444_msg_generator.c:920-934 | the session and the writer agree on which TLVs continue a run: the address before has one of the type and length |
| CompressionBound.FeedCharge | sys/oonf_api/rfc5444/rfc5444_msg_generator.c:970-1060 | a TLV adds to the merged runs exactly what the session counts for it, from its counters |
| CompressionBound.SessionPays | sys/oonf_api/rfc5444/rfc5444_msg_generator.c:936-1061 | for addresses of one prefix length every strategy has counted, after every address, all that it counts for the blocks chosen so far and for its own block |
| CompressionBound.BlockPays | sys/oonf_api/rfc5444/rfc5444_msg_generator.c:1213-1362 | with short values a block takes no more bytes than the session counts for it |
| CompressionBound.SpentFits | sys/oonf_api/rfc5444/rfc5444_msg_generator.c:286-391 | if the session finds room for all addresses of one prefix length, the room covers all that it counts for the blocks it chooses |
| CompressionBound.RunExact | sys/oonf_api/rfc5444/rfc5444_msg_generator.c:1068-1136 | the bytes of a merged TLV against what the session counts: less the index fields that it does not need, and one more exactly if merging makes its length field longer |
| CompressionBound.BlockExact | sys/oonf_api/rfc5444/rfc5444_msg_generator.c:1213-1362 | the bytes of a block of one prefix length against what the session counts: the block is undercounted exactly if merging makes more length fields longer than tail, head and index fields save |
| AddressBlockWriter.CalcTail | sys/oonf_api/rfc5444/rfc5444_msg_generator.c:1257-1278 | the longest tail shared by all addresses of the block that leaves at least one byte between head and tail |
| AddressBlockWriter.IsZeroTail | sys/oonf_api/rfc5444/rfc5444_msg_generator.c:1280-1285 | true exactly for a tail of zeros |
| AddressBlockWriter.WriteAddrBlock | sys/oonf_api/rfc5444/rfc5444_msg_generator.c:1288-1337 | count, patched flags, head, tail or zero tail, mid parts and prefix lengths |
| MessageWriter.WriteAddresses | sys/oonf_api/rfc5444/rfc5444_msg_generator.c:1213-1362 | all blocks with their TLV blocks and patched length fields, found by following _block_end |
| AddressBlocks.ParseAddrBlock | sys/oonf_api/rfc5444/rfc5444_reader.c:807-905 | an accepted block takes at least two bytes, has addresses, and its mid parts and prefix lengths lie inside the buffer; all error branches |
| AddressBlocks.ReadsPastExact | sys/oonf_api/rfc5444/rfc5444_reader.c:873-902 | parsing an address block reads behind the buffer exactly if its head and tail are accepted, it asks for one prefix length, and its mid parts end with the buffer |
| AddressBlocks.ReadsPastAt | sys/oonf_api/rfc5444/rfc5444_reader.c:884-887 | the six bytes 1, 0x10 and an address at the end of the buffer do so |
| AddressBlocks.MidExact | sys/oonf_api/rfc5444/rfc5444_reader.c:823-878 | head and mid part of an accepted block fit into an address exactly if head and tail together are not longer than an address, and into the 16 byte address buffer exactly if that is so or the tail has at least 240 bytes more than an address |
| AddressBlocks.CopiesPastExact | sys/oonf_api/rfc5444/rfc5444_reader.c:974-976 | copying the mid part of an accepted block passes the address buffer exactly if its two length bytes say so |
| AddressBlocks.Overruns | sys/oonf_api/rfc5444/rfc5444_reader.c:823-878 | a block of 261 bytes that is accepted with a mid part of 254 bytes |
| AddressBlocks.Spills | sys/oonf_api/rfc5444/rfc5444_reader.c:823-878 | a block that is accepted with a mid part past the end of the address but inside the address buffer |
| AddressBlocks.ReadAddrBlock | sys/oonf_api/rfc5444/rfc5444_reader.c:807-905 | parsing undoes writing: for every block with a common head, head, mid part and full or zero tail rebuild every address and its prefix length |
| AddressBlocks.Rebuilt | sys/oonf_api/rfc5444/rfc5444_reader.c:974-984 | head ++ mid part ++ tail is the address, for full and for zero tails |
| MessageReader.AssembleAddresses | sys/oonf_api/rfc5444/rfc5444_reader.c:966-984 | copying mid part after mid part into one address buffer gives every address of the block, and runs past the buffer exactly if MidExact says so; for every accepted block |
| MessageReader.AssembleAll | sys/oonf_api/rfc5444/rfc5444_reader.c:948-1031 | the addresses of all blocks of a message, or a copy past an address buffer exactly if one of the blocks has one |
| MessageWriter.WriteMsgHeader | sys/oonf_api/rfc5444/rfc5444_msg_generator.c:1369-1410 | the header with its patched flags and both size fields, over the first bytes of the buffer only |
| MessageWriter.SetOptional | sys/oonf_api/rfc5444/rfc5444_msg_generator.c:1448-1453 | each wanted TLV is set exactly if those set before it leave room in what was allocated |
| MessageWriter.AcceptedKept | sys/oonf_api/rfc5444/rfc5444_tlv_writer.c:142-157 | which optional TLVs are set: each exactly if those that are set before it leave room |
| MessageWriter.Finalize | sys/oonf_api/rfc5444/rfc5444_msg_generator.c:1422-1525 | header, message TLVs and all address blocks, with unused allocated space cut out; the size field is the length of the message |
| MessageWriter.CreateMessage | sys/oonf_api/rfc5444/rfc5444_msg_generator.c:110-407 | the exact outcome: a message of one fragment with all addresses in order, cut into the blocks with common heads that the session chooses, or why not; it is created and within its limit if there is room for a block for every address, and also if the session finds room, all addresses have one prefix length and the values are short |
| MessageWriter.CutsAtMost | sys/oonf_api/rfc5444/rfc5444_msg_generator.c:1213-1362 | for every partition of the addresses the blocks take no more bytes than a block for every address |
| MessageWriter.FragmentFits | sys/oonf_api/rfc5444/rfc5444_msg_generator.c:286-391 | with one prefix length and short values, blocks for which the session finds room have room |
| MessageWriter.Underestimates | sys/oonf_api/rfc5444/rfc5444_msg_generator.c:952-965 | with two prefix lengths the session finds room in 11 bytes for a block that takes 14 |
| MessageWriter.LongValuesUnderestimated | sys/oonf_api/rfc5444/rfc5444_msg_generator.c:983-1016 | with one prefix length and three different values of 100 bytes the session finds room in 317 bytes for a block that takes 318 |
| MessageReader.ParseMessage | sys/oonf_api/rfc5444/rfc5444_reader.c:1074-1180 | an accepted message has at least six bytes and ends inside the buffer |
| MessageReader.SizeField | sys/oonf_api/rfc5444/rfc5444_reader.c:1134-1142 | the cursor is left at the start of the message plus its size field |
| MessageReader.BlocksWithin | sys/oonf_api/rfc5444/rfc5444_reader.c:1151-1180 | every address block of an accepted message has addresses and lies inside the message, and its TLVs cover addresses of the block |
| MessageReader.ReadBlocks | sys/oonf_api/rfc5444/rfc5444_reader.c:1151-1180 | the loop over address blocks ends on every byte string, with every TLV block in its own tree |
| MessageReader.HandleMessage | sys/oonf_api/rfc5444/rfc5444_reader.c:1074-1180 | the objects of the reader hold what the functions above say, or the error is the first one |
| MessageReader.MessageDivides | sys/oonf_api/rfc5444/rfc5444_reader.c:1074-1180 | a message divides by 0 exactly if a TLV that is reached in it does |
| MessageReader.MessageReadsPast | sys/oonf_api/rfc5444/rfc5444_reader.c:1074-1180 | a message reads behind the buffer exactly if an address block that is reached in it does |
| MessageReader.MessageCopiesPast | sys/oonf_api/rfc5444/rfc5444_reader.c:1074-1180 | assembling the addresses of an accepted message copies past an address buffer exactly if two length bytes of one of its blocks say so |
| MessageReader.PacketFaults | sys/oonf_api/rfc5444/rfc5444_reader.c:133-263 | the exact conditions, on the TLVs and address blocks that are reached, under which the reader divides by 0, reads behind the buffer, and, with an address consumer, copies past an address buffer |
| MessageReader.ReadsPastPacket | sys/oonf_api/rfc5444/rfc5444_reader.c:884-887 | a packet of 13 bytes reads behind the buffer, although no TLV in it divides by 0 |
| MessageReader.CopiesPastPacket | sys/oonf_api/rfc5444/rfc5444_reader.c:974-976 | a packet of 29 bytes is accepted without an address consumer, and copies past an address buffer with one |
| MessageReader.HandlePacket | sys/oonf_api/rfc5444/rfc5444_reader.c:133-263 | halts on every byte string; the status tells exactly whether one of these steps is taken, and otherwise gives version, sequence number, length and TLV block errors; a walk of the objects of every message up to the first that is not accepted shows its header, TLVs, address blocks and, with an address consumer, its addresses |
| MessageRoundTrip.ReadHeader | sys/oonf_api/rfc5444/rfc5444_reader.c:1096-1142 | parsing undoes writing for every header, with and without each optional field |
| MessageRoundTrip.ReadCuts | sys/oonf_api/rfc5444/rfc5444_reader.c:1151-1180 | for every partition of the addresses into blocks with common heads, the addresses that consumers see are the addresses written, with prefix lengths and TLVs |
| MessageRoundTrip.ReadMessage | sys/oonf_api/rfc5444/rfc5444_reader.c:1074-1184 | every message that the writer makes is decoded to the same header, the same message TLVs, and the same addresses in order, each with its prefix length and exactly its own TLVs; the reader stops at its end |
| MessageRoundTrip.ReadPacket | sys/oonf_api/rfc5444/rfc5444_reader.c:133-240 | a packet of the form that the writer sends is accepted, with and without an address consumer, with its sequence number and all its messages in order |
| MessageRoundTrip.ReadSent | sys/oonf_api/rfc5444/rfc5444_reader.c:133-240 | every packet that a target has sent, of messages that the writer made, is read back |
| PacketWriter.Target.constructor | sys/oonf_api/rfc5444/rfc5444_pkt_generator.c:63-102 | a flushed target without messages |
| PacketWriter.Target.BeginPacket | sys/oonf_api/rfc5444/rfc5444_pkt_generator.c:63-102 | the header is reserved and no message is lost |
| PacketWriter.Target.Compact | sys/oonf_api/rfc5444/rfc5444_pkt_generator.c:152-167 | header and memmove: the packet is the real header followed by the messages, although a longer header was reserved |
| PacketWriter.Target.Flush | sys/oonf_api/rfc5444/rfc5444_pkt_generator.c:112-202 | the messages in the buffer leave in one packet behind its header, none lost, repeated or reordered; nothing is sent from a flushed buffer unless forced |
| PacketWriter.Target.AddMessage | sys/oonf_api/rfc5444/rfc5444_msg_generator.c:1495-1568 | from a flushed target, or if the reserved header, the bytes in the buffer and the message fit, the message joins the buffer and nothing is sent; otherwise exactly one packet leaves, with all messages that were in the buffer, and the message is alone in the next |
| Schedule.ScheduleTlvBlock | sys/oonf_api/rfc5444/rfc5444_reader.c:622-757 | for all entries, also overlapping ones: the merge of TLV tree and consumer entries ends; every entry gets exactly the undropped TLVs of the types that go to it which cover the address, in tree order; the constraints fail exactly if some entry fails as Fails says |
| Schedule.GetsAllExact | sys/oonf_api/rfc5444/rfc5444_reader.c:697-745 | an entry gets all types that it takes exactly if the entries before it lie below it |
| Schedule.GetsExact | sys/oonf_api/rfc5444/rfc5444_reader.c:345-381 | which types go to an entry, on types and extensions: those of the entry that are above all entries before it |
| Schedule.FailsExact | sys/oonf_api/rfc5444/rfc5444_reader.c:697-745 | when an entry fails, on the fields of the entry and the TLVs: lengths within both bounds pass |
| Schedule.WantedAscends | sys/oonf_api/rfc5444/rfc5444_reader.c:665-731 | an entry gets its TLVs in the order of the tree |
| Schedule.Overlapping | sys/oonf_api/rfc5444/rfc5444_reader.c:697-745 | an entry for one extension behind an entry for all extensions of the type gets nothing |
| Schedule.MandatoryExact | sys/oonf_api/rfc5444/rfc5444_reader.c:697-745 | for all entries: one that should fail (mandatory without a TLV, or a TLV of bad length) fails, and the other way round exactly if it is not mandatory, or should fail, or all TLVs of its types in the block cover the address |
| Schedule.MandatoryPresentAndFailed | sys/oonf_api/rfc5444/rfc5444_reader.c:697-745 | two addresses that a writer can be given, of which the first has its mandatory TLV and the constraints fail all the same |
| Schedule.WantedValues | sys/oonf_api/rfc5444/rfc5444_reader.c:665-731 | what an entry gets is what the address has of the types that go to the entry, in order |
| Schedule.ConsumerGets | sys/oonf_api/rfc5444/rfc5444_reader.c:948-1031 | from the writer to the consumer: for every block, address and entry, the entry ends with exactly the TLVs of the types that go to it which the writer was given for the address |
| Schedule.SortEntries | sys/oonf_api/rfc5444/rfc5444_reader.c:1290-1323 | the insertion sort of _add_consumer: sorted, a permutation with repaired maximum lengths, and entries of one type and extension in the order in which they were given |
| AddressSession.AddressSession.constructor | sys/oonf_api/rfc5444/rfc5444_writer.c:237-272 | no addresses |
| AddressSession.AddressSession.FindAddress | sys/oonf_api/rfc5444/rfc5444_writer.c:246-247 | the record of the netaddr, or none exactly if there is none |
| AddressSession.AddressSession.AddAddress | sys/oonf_api/rfc5444/rfc5444_writer.c:237-272 | one record for a netaddr, new at the end of its list or the one that is there with its mandatory flag joined; no address loses TLVs, and an address that becomes mandatory later keeps its place |
| AddressSession.AddressSession.AddAddrTlv | sys/oonf_api/rfc5444/rfc5444_writer.c:189-225 | exact conditions for a duplicate type and for a full value buffer; otherwise the address gains exactly this TLV and value, and no value of any address changes |
| AddressSession.AddressSession.Store | sys/oonf_api/rfc5444/rfc5444_writer.c:644-657 | the value buffer only grows, so that values already stored stay |
| AddressSession.InputExact | sys/oonf_api/rfc5444/rfc5444_writer.c:237-272 | the addresses are what the message writer takes exactly if the netaddrs have one length, are at most 255, have prefix lengths below 255, and neighbours differ in some byte |
| AddressSession.DifferentBytes | sys/oonf_api/rfc5444/rfc5444_writer.c:237-272 | netaddrs of which no two have the same bytes are taken in whatever order they were added |
| WireFormat.HeaderLayout | sys/oonf_api/rfc5444/rfc5444_msg_generator.c:1369-1410 | for every header: bits 128, 64, 32 and 16 of the second byte are set exactly for originator, hop limit, hop count and sequence number, its lower half is the length less one, and every field stands at its place |
| WireFormat.HeaderParsed | sys/oonf_api/rfc5444/rfc5444_reader.c:1096-1142 | for every byte string: the reader takes the header from these bits and places, and refuses it exactly if it or the message does not end in the buffer |
| WireFormat.TlvLayout | sys/oonf_api/rfc5444/rfc5444_tlv_writer.c:193-232 | for every TLV: bits 128, 64, 32, 16, 8 and 4 are set exactly for an extension, one index, two indices, a value, a value of more than 255 bytes and several values, and every field stands at its place |
| WireFormat.TlvParsed | sys/oonf_api/rfc5444/rfc5444_reader.c:446-546 | for every byte string: the TLV that the reader takes from these bits and places, or the first reason to refuse it |
| WireFormat.TailLongest | sys/oonf_api/rfc5444/rfc5444_msg_generator.c:1257-1278 | every tail longer than the one that is written differs in some address, or leaves no byte between head and tail |
| WireFormat.BlockBits | sys/oonf_api/rfc5444/rfc5444_msg_generator.c:1288-1337 | for every block: bits 128, 64, 32, 16 and 8 are set exactly for a head, a tail that is written, a tail of zeros, one prefix length and several |
| WireFormat.BlockFront | sys/oonf_api/rfc5444/rfc5444_msg_generator.c:1288-1316 | number of addresses, flags, head and tail stand at their places |
| WireFormat.BlockRest | sys/oonf_api/rfc5444/rfc5444_msg_generator.c:1317-1337 | the middle of every address and the prefix lengths stand at their places, and nothing else is written |
| WireFormat.AddrBlockParsed | sys/oonf_api/rfc5444/rfc5444_reader.c:807-905 | for every byte string: the block that the reader takes from these bits and places, or the first reason to refuse it |
| WireFormat.AddressBytesAt | sys/oonf_api/rfc5444/rfc5444_reader.c:966-992 | every byte of every address of a block, and its prefix length, where 255 stands for the whole address |
| WireFormat.TlvBlockParsed | sys/oonf_api/rfc5444/rfc5444_reader.c:558-580 | the length of a TLV block has its upper byte first |
| WireFormat.TlvsChain | sys/oonf_api/rfc5444/rfc5444_reader.c:579-602 | the TLVs of a block follow each other up to its end, each parsed where the one before it ends, or up to the first that is refused |
| WireFormat.BlocksChain | sys/oonf_api/rfc5444/rfc5444_reader.c:1151-1180 | the same for the address blocks of a message with their TLV blocks |
| WireFormat.MessageExact | sys/oonf_api/rfc5444/rfc5444_reader.c:1074-1184 | an accepted message is its header, TLV block and address blocks, and ends where its size says; a refused one has the error of the first of these that is refused |
| WireFormat.MessagesChain | sys/oonf_api/rfc5444/rfc5444_reader.c:234-237 | the messages of a packet follow each other up to its end, or up to the first that is refused, whose error is the status |
| WireFormat.PacketParsed | sys/oonf_api/rfc5444/rfc5444_reader.c:133-200 | for every byte string: version in the upper half of the first byte, bit 8 for a sequence number, bit 4 for a TLV block |
| WireFormat.PacketSent | sys/oonf_api/rfc5444/rfc5444_pkt_generator.c:152-167 | the header of a packet is 8 and the sequence number, or 0, and is read so |
| RreqPacket.RreqHeaderRead | sys/oonf_api/rfc5444/rfc5444_reader.c:1096-1142 | the bytes 10, 0x4F, 0, 7, 255, 0, 0 are a RREQ with hop limit 255, no hop count and 16 byte addresses |
| RreqPacket.SequenceNumberRead | sys/oonf_api/rfc5444/rfc5444_reader.c:446-546 | the TLV 0, 0x50, 0, 2 and two bytes is for the first of two addresses |
| RreqPacket.RreqRead | sys/oonf_api/rfc5444/rfc5444_reader.c:133-240 | a RREQ packet of 42 bytes, with any addresses of one network, number, metric and hop limit, is read as exactly this RREQ |
| RreqPacket.RreqSent | sys/oonf_api/rfc5444/rfc5444_msg_generator.c:1213-1525 | the message of originator and target in one block is exactly these bytes |
| RreqPacket.RreqChosen | sys/oonf_api/rfc5444/rfc5444_msg_generator.c:286-391 | the session finds room for both in 36 bytes, and chooses one block with a head of 15 bytes |
| RreqPacket.SendRreq | sys/net/aodvv2/aodvv2_writer.c:92-210 | from a flushed target, sending such a RREQ and flushing sends exactly one packet, which is exactly these bytes |
| NumberCodecs.TimeEncode | sys/oonf_api/rfc5444/rfc5444.c:89-126 | for every 64 bit time the least code whose time is not below it, with 0 and 255 as the end points |
| NumberCodecs.TimeGalois | sys/oonf_api/rfc5444/rfc5444.c:89-173 | encode(t) <= c if and only if t <= decode(c), for all times and codes |
| NumberCodecs.TimeFloor | sys/oonf_api/rfc5444/rfc5444.c:135-173 | the shifts lose nothing that matters for whole milliseconds |
| NumberCodecs.TimeStable | sys/oonf_api/rfc5444/rfc5444.c:89-173 | encode(decode(c)) = c exactly if c is none of 2 to 8, 10, 11, 12, 14, 15, 16, 18, 20, 22 and 24 |
| NumberCodecs.TimeUnstable | sys/oonf_api/rfc5444/rfc5444.c:89-173 | it fails for code 2, which decodes to the same millisecond as code 1 |
| NumberCodecs.MetricEncode | sys/oonf_api/rfc5444/rfc5444.c:184-219 | an error outside the range of metrics, the largest code above the largest finite metric, else the least code that is not below the metric |
| NumberCodecs.DecodeCodeIs | sys/oonf_api/rfc5444/rfc5444.c:226-230 | decoding looks at the 12 bits of the code only |
| NumberCodecs.MetricGalois | sys/oonf_api/rfc5444/rfc5444.c:184-230 | encode(m) <= c if and only if m <= decode(c) |
| NumberCodecs.MetricStable | sys/oonf_api/rfc5444/rfc5444.c:184-230 | encode(decode(c)) = c for all 4096 codes |
| NumberCodecs.MetricRounding | sys/oonf_api/rfc5444/rfc5444.c:184-230 | 256 * (decode(encode(m)) - m) < m + 256 |
| NumberCodecs.TimeFromVector | sys/oonf_api/rfc5444/rfc5444.c:58-77 | the time of the first hop count limit that covers the hop count, or the last one; 255 for an even length |
| NumberCodecs.SeqnoDifference | sys/oonf_api/rfc5444/rfc5444.c:238-250 | a difference of at most 2^15 either way that leads from the second number to the first in 16 bit arithmetic, with the sign of the plain difference at 2^15 |
| NumberCodecs.SeqnoAntisymmetric | sys/oonf_api/rfc5444/rfc5444.c:238-250 | swapping the numbers changes the sign of their difference |
| McMsg.SeqCmp | sys/include/net/aodvv2/seqnum.h:66-70 | the signed 16 bit distance from the existing to the received number |
| McMsg.ComparableIs | sys/net/aodvv2/aodvv2_mcmsg.c:84-101 | two messages are comparable if they are compatible and have the same SeqNoRtr or both none |
| McMsg.McMsgSet.constructor | sys/net/aodvv2/aodvv2_mcmsg.c:146-155 | sixteen unused entries |
| McMsg.McMsgSet.FindComparableEntry | sys/net/aodvv2/aodvv2_mcmsg.c:40-117 | the first entry that compares with the message and whose removal has not passed (at the time of removal it still counts); the stale entries before it, and no others, are reset |
| McMsg.McMsgSet.AddEntry | sys/net/aodvv2/aodvv2_mcmsg.c:119-144 | the first unused entry, or nothing if the set is full |
| McMsg.McMsgSet.ProcessMessage | sys/net/aodvv2/aodvv2_mcmsg.c:157-224 | the whole new state and the verdict of Process, which UnknownExact and KnownExact spell out |
| McMsg.UnknownExact | sys/net/aodvv2/aodvv2_mcmsg.c:40-224 | for every set: a message that compares only with entries whose removal has passed is OK, goes into the first unused or stale slot with removal = now + lifetime and without its SeqNoRtr, every other stale entry goes, and all others stay |
| McMsg.KnownExact | sys/net/aodvv2/aodvv2_mcmsg.c:40-224 | for every set: the verdict and the whole new state for a message that compares with an entry that counts, on the fields of the entries; the loop over rivals included |
| McMsg.StaleTaken | sys/net/aodvv2/aodvv2_mcmsg.c:40-54 | once the removal of all entries for it has passed, a message is taken again whatever its number is, and it is entered if a slot is unused or stale |
| McMsg.StartsAgain | sys/net/aodvv2/aodvv2_mcmsg.c:40-54 | a RREQ with number 5 at time 0 with lifetime 300: its copy is redundant at time 300 and taken at time 301 |
| McMsg.ProcessOneEntry | sys/net/aodvv2/aodvv2_mcmsg.c:157-224 | with no SeqNoRtr in use there is at most one entry for an originator, length, target and metric type, whatever is processed |
| McMsg.VerdictExact | sys/net/aodvv2/aodvv2_mcmsg.c:157-224 | a message is redundant if and only if there is an entry for it whose removal has not passed and which is newer by at most half of the circle, or has the same sequence number and metric |
| McMsg.SeqnumForward | sys/net/aodvv2/aodvv2_mcmsg.c:180-200 | a stored sequence number is only replaced by one that is not older in the circular order |
| McMsg.DuplicateSuppressed | sys/net/aodvv2/aodvv2_mcmsg.c:40-224 | a second copy, at any later time, is redundant if and only if the lifetime has not passed and the set had the key, an unused slot or a stale one for the first |
| McMsg.DuplicateSuppressedAfter | sys/net/aodvv2/aodvv2_mcmsg.c:157-224 | the same after any messages with other keys in between |
| McMsg.FullSetForgets | sys/net/aodvv2/aodvv2_mcmsg.c:40-144 | sixteen originators fill the set; up to their removal the first message of a seventeenth leaves no entry and its duplicate is not redundant; from the next time on it is the only entry |
| McMsg.SeqNoRtrForgotten | sys/net/aodvv2/aodvv2_mcmsg.c:119-200 | a message with a SeqNoRtr is never redundant, because entries do not store it |
| Flood.RreqReader.MessageTlvs | sys/net/aodvv2/aodvv2_reader.c:295-311 | hop limit present and not 0, and decremented |
| Flood.RreqReader.AddressTlvs | sys/net/aodvv2/aodvv2_reader.c:313-377 | which fields an address fills, and when it is dropped |
| Flood.RreqReader.End | sys/net/aodvv2/aodvv2_reader.c:379-495 | drop, forward or reply, exactly as the fields of the message and the entries of the set say |
| Flood.RreqReader.Handle | sys/net/aodvv2/aodvv2_reader.c:295-495 | for every RREQ: a reply with one hop less exactly if the router takes the message up and has the target as a client, a forward with one hop less, one more in the metric and the low byte of the number exactly if it takes it up and has not, else a drop |
| Flood.ReactionExact | sys/net/aodvv2/aodvv2_reader.c:379-495 | the exact reaction for every input, on the fields of the message: hop limit above 1, originator, target, low byte of the number, hop count metric below 254, not redundant, better route, client |
| Flood.MemoryExact | sys/net/aodvv2/aodvv2_reader.c:379-420 | nothing is recorded of a RREQ that fails a check, and otherwise what the set makes of its fields, whether the route is better or not |
| Flood.GetRreqExact | sys/net/aodvv2/aodvv2_reader.c:379-495 | a RREQ that gets to the router of its target puts exactly one RREP with one hop less in flight; at another router that takes it up it becomes one RREQ for every neighbour, and else it is gone; other routers are not concerned |
| Flood.LowByte | sys/net/aodvv2/aodvv2_reader.c:313-330 | the number that a router records and forwards is the one that was sent exactly if that is below 256; one with a low byte of 0 gets past no router |
| Flood.LowByteLost | sys/net/aodvv2/aodvv2_reader.c:313-330 | 256 is dropped, and 257 goes on as 1 |
| Flood.ReceiveKeeps | sys/net/aodvv2/aodvv2_reader.c:402-420 | a forwarded RREQ keeps hop limit + metric = 255 |
| Flood.RunSafe | sys/net/aodvv2/aodvv2_reader.c:379-495 | in every state of every run, every RREQ in flight has hop limit + metric = 255 and no router has two entries for one key |
| Flood.EventForward | sys/net/aodvv2/aodvv2_reader.c:414-418 | along every step of every run, sequence numbers of live entries only move forward |
| Flood.EventShrinks | sys/net/aodvv2/aodvv2_reader.c:119-495 | every discovery, reception, relay and loss lowers the weighted sum of the copies in flight and the discoveries to come |
| Discovery.TooFar | sys/net/aodvv2/aodvv2_reader.c:119-495 | in every run of every network, a RREP for a target at a distance gets back with a hop limit of 256 less twice the distance at most, so that no discovery of a target 128 hops away or more completes, although RREQs get 254 hops far |
| Discovery.DiscoveryCompletes | sys/net/aodvv2/aodvv2_reader.c:119-495 | along a line of n hops, n up to 128, there is a run of 2 * n steps after which the RREP is back with exactly 256 - 2 * n hops left: a discovery completes up to 127 hops, and the bound of TooFar is met |
| Discovery.HopReceived | sys/net/aodvv2/aodvv2_reader.c:295-495 | router j of a line sends the RREQ on with 255 - j hops left, or is the last one and answers with as many |
| Flood.RunEnds | sys/net/aodvv2/aodvv2_reader.c:119-495 | every run of RREQ flooding and RREP relaying in a finite network from finitely many discoveries ends, within a bound that its first state gives |

## Left out

- Avl.Insert: an inserted node must not be in the tree and must not be its head; the key of a node is constant, and the head of the list is a node of its own.
- AvlRebalance.AvlTree.RotateRight: the repeated update of the parent's child pointer and of the mirrored halves of rebalancing is factored into helper methods (SetChild, GrownLeft, ShrunkLeft, RaiseLeft and their mirror images), which the code writes out.
- CompressionBound.SpentFits: a bound on the real size is claimed for one prefix length and short values; for other addresses only the sum of single blocks bounds it.
- MessageWriter.Finalize: the code has no bound on the address blocks in the message buffer; where it would write behind the buffer the model stops with NoRoom. Post-processors are not modelled.
- MessageWriter.CreateMessage: messages of several fragments end with the outcome Fragmented; target selection, callbacks of content providers and registration of message types are parameters. A header longer than the message size, where the remaining size wraps, is excluded.
- Compression.CompressAddress: addresses that follow each other with equal bytes and different prefix lengths are excluded, because the code then reads behind its strategies (CommonWhole).
- TlvFormat.ParseTlv: a remainder by 0 ends the run of the model; the pointer to a value of length 0 is not modelled.
- TlvBlock.ParseTlvBlock: memory does not run out, and freeing the TLVs after an error is not modelled; TLVs are compared as 16 bit numbers.
- MessageReader.HandlePacket: the TLVs of the packet itself are parsed but not kept, because their tree compares 32 bits of a 16 bit key; consumers are an address consumer that drops nothing, or none; other callbacks, their drop results, and forwarding are not modelled. Pointers behind the buffer that are compared and not used, the order in which the two bytes of a 16 bit field are read, and the key comparison of the packet TLV tree are left open by C and are not counted as faults.
- MessageReader.AssembleAddresses: where the copy of a mid part would run past the address buffer the model stops.
- Schedule.ScheduleTlvBlock: no tlv_callback, and no copy of values into private buffers. The list of TLVs of an entry is a sequence of positions.
- PacketWriter.Target.AddMessage: every message fits an empty packet, and there are no packet TLVs.
- AddressSession.AddressSession.AddAddrTlv: only without allow_dup, and with values below 64K.
- RreqPacket.SendRreq: originator and target share their first 15 bytes and have whole addresses; other address pairs are covered by the general theorems only.
- NumberCodecs.TimeDecode: shifts are multiplications and divisions by powers of two; no value leaves 64 bits.
- McMsg.McMsgSet.ProcessMessage: the clock is read once for every message.
- Flood.RreqReader.Handle: messages have the form that aodvv2_writer.c gives them; route table and client set are boolean inputs. The uninitialised SeqNoRtr of an originated RREQ is taken as none.
- Discovery.TooFar: neighbours are a distance from the originators, and links do not change; that a RREP finds its next hop, and the other reasons to drop it, are inputs of a step.
- Flood.RunEnds: a RREP is relayed to at most one next hop; a missing next hop is not modelled.
- Loop freedom and route improvement of AODVv2: the sequence comparison of the route table has its arguments the other way round.
- RIOT threads, GNRC, sockets, shell commands, printing and string functions: input, output and calls into code that is not part of this model.
