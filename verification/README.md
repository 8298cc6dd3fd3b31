# Userspace XDP, modelled and verified in Dafny

The repository runs XDP programs in user space, on AF_XDP sockets and on DPDK. This project
models the parts of it that carry state or arithmetic and proves what they promise.

- **Internet checksum** (`OnesComplement`, `Checksum`, `CsumDiff`): both versions of
  `csum_partial` against the sum of RFC 1071, and the incremental update of RFC 1624. Sums are
  compared by their one's-complement value, zero kept apart from 0xffff, so folding, carries and
  byte order are exact statements and not only congruences.
- **Packet programs** (`Packets`, `Xdping`, `LoadBalancer`, `IpTunnel`, `UdpChecksum`,
  `PacketGenerator`): echo reply, load balancer, tunnel and the benchmark's packet generator on
  packet buffers, and which of the checksums they send verify.
- **xxHash32** (`XxHash`): the recursive hash on 32-bit words.
- **AF_XDP** (`Rings`, `Fragments`, `Frames`, `AfXdp`): `l2fwd` and `rx_drop` on one socket. The
  class `Xsk` holds four rings; the method `Kernel`, called between the ring operations of the
  program, takes any number of nondeterministic kernel steps. Ghost logs record all that was
  ever written, and one invariant says who owns every frame.
- **Hash map over a byte buffer** (`Probing`, `MapRefinement`, `HashMap`): the methods on the
  buffer are proved against operations on a table of buckets, and the table against a finite map,
  over every history.
- **Longest-prefix match** (`Prefixes`, `LpmTrie`): a heap of nodes taken from chained blocks,
  proved against the history of puts.
- **LRU cache** (`Recency`, `LruCache`): list and index, proved against the history of operations.
- **JSON writer** (`Json`, `JsonWriter`): the streaming writer, with a decoder that recovers every
  value tree from its text.
- **DPDK ports** (`DpdkPorts`): port pairs, destination table and assignment of ports to cores.

`Machine` has the machine words as ranges of integers, `DivMod` the few facts about division that
the others need. C arithmetic is written out: sums and indices are reduced modulo the width of
their type wherever the source relies on it. `dafny verify dfyconfig.toml` checks the project.

Some things that the code's comments or the usual reading suggest are not true of it. The model
follows the code and proves exactly when the property holds:

- a single fold, as the tunnel computes its outer checksum, can lose a carry
  (`IpTunnel.OuterVerifies`, `IpTunnel.CarryCanBeLost`);
- an incremental checksum update that clears everything but the checksum field leaves the message
  invalid, unless checksum and replaced bytes were all ones (`CsumDiff.UpdateKeepsValid`,
  `CsumDiff.UpdateCanInvalidate`);
- for a negative length the two versions of `csum_partial` can differ (`Checksum.VersionsAgree`,
  `Checksum.NegativeLength`); their one caller passes 0 to 512, where they agree
  (`CsumDiff.PadVersionsAgree`);
- deleting from the hash map can hide another key (`MapRefinement.DeleteRefinesIff`,
  `MapRefinement.DeleteCanHideAKey`);
- `udp_csum` takes in the byte behind a datagram of odd length (`UdpChecksum.UdpVerifies`,
  `UdpChecksum.ByteBehindCounts`); its one caller keeps that byte zero, so what it generates
  verifies (`PacketGenerator.GeneratedVerifies`);
- the last cell of every block of the trie's arena is never used
  (`LpmTrie.Trie.LastCellsUnused`), and what is put under a prefix that already has a value is
  dropped (`LpmTrie.Trie.Store`);
- the LRU cache's hard limit is a sum in 64 bits, and the cache is cut back as soon as it reaches
  that limit, so its size stays below it or within the soft limit (`Recency.ListIsRecent`).

## Model

| member | source | states |
|---|---|---|
| Checksum.From32To16 | module/helpers.c:61-68 | two folds give the one's-complement value of any 32-bit sum, with 0 only for 0 |
| Checksum.DoCsum | module/helpers.c:73-125 | for every buffer, length and start address the result is 0 for a sum of 0 and otherwise 1 + (S - 1) mod 65535, S being the sum of the little-endian 16-bit words; a length of 0 or less gives 0 |
| Checksum.SumHalfWords | module/helpers.c:90-119 | alignment, the word loop and the tail add every byte once, in the phase the start address gives it |
| Checksum.AddWord | module/helpers.c:100-104 | one round of the end-around-carry loop loses nothing: old carry, word and sum are the new sum plus 2^32 times the new carry, and a set carry leaves room for it |
| Checksum.AddWords | module/helpers.c:96-107 | the loop adds the 32-bit words of its range in one's-complement arithmetic |
| Checksum.AddTail | module/helpers.c:107-119 | fold, optional half-word and optional byte add the last 0 to 3 bytes without overflow |
| Checksum.SwapHalves | module/helpers.c:121-122 | the shifts and masks exchange the two bytes of a 16-bit sum |
| OnesComplement.OutOfPhase | module/helpers.c:80-89 | reading a buffer one byte out of phase multiplies its sum by 256 (RFC 1071, section 2 (B)) |
| OnesComplement.SwapUndoesPhase | module/helpers.c:121-122 | exchanging the bytes of the folded sum undoes an odd start address exactly, zero included |
| Checksum.CsumPartial | module/helpers.c:127-137 | the seed is added with its carry brought back; the result has the value of seed plus word sum, and is the seed itself for a length of 0 or less |
| Checksum.AdcKeepsRoom | module/helpers.c:155-167 | in a chain begun with addq the carry is set only when the register is at most 2^64 - 2, so the last adcq of zero loses nothing |
| Checksum.AddChain | module/helpers.c:155-167 | a chain of adcq over any number of words, closed by adcq of zero, adds the words to the sum |
| Checksum.UpdateCsum40b | module/helpers.c:155-167 | five words in one chain add 40 bytes to the sum |
| Checksum.CsumFinalizeSum | module/helpers.c:150-153 | the 64-bit sum added to its own rotation leaves a 32-bit number of the same one's-complement value in its upper half |
| Checksum.AddPairs | module/helpers.c:197-209 | two accumulators over alternate 40-byte chunks, joined with end-around carry, hold the sum over all pairs |
| Checksum.AddBlocks | module/helpers.c:223-258 | the 32-, 16- and 8-byte blocks picked by the bits of the length and the trailing word cover the rest |
| Checksum.ShiftBack | module/helpers.c:249-252 | shifting left out of the word and back right keeps exactly the low part |
| Checksum.TrailingBytes | module/helpers.c:248-252 | the trailing word, shifted both ways, is the little-endian sum of the last len mod 8 bytes; bytes read behind the buffer drop out |
| Checksum.CsumPartial64 | module/helpers.c:192-260 | for every length and seed the 64-bit version has the value of seed plus the word sum of the bytes it covers: all of them, or as many as the low six bits of a negative length say |
| Checksum.VersionsAgree | module/helpers.c:127-260 | folded to 16 bits, the 32-bit and the 64-bit csum_partial return the same number for every buffer, seed, start address and non-negative length; for a negative length if and only if the bytes that only the second one reads are all zero, or sum to a multiple of 0xffff while the seed is not zero |
| Checksum.NegativeLength | module/helpers.c:127-260 | a negative length, which no caller passes, for which the two versions differ |
| Checksum.BlocksCover | module/helpers.c:223-258 | the blocks and trailing bytes that the bits of any length select are that length modulo 64 |
| CsumDiff.FillPad | module/helpers.c:285-288 | the scratch pad holds the complemented old words, then the new words |
| CsumDiff.SumScratch | module/helpers.c:285-290 | the sum of the pad continues the seed |
| CsumDiff.PadVersionsAgree | module/helpers.c:285-290 | on everything the helper passes, either version of csum_partial folds to the same number: the one's-complement sum of seed, complemented old words and new words |
| CsumDiff.CsumDiffRuntime | module/helpers.c:263-291 | for whole 32-bit words of at most 512 bytes together a 32-bit number congruent to seed + sum(to) - sum(from) modulo 0xffff; for every other pair of sizes whose sum does not wrap, the 64-bit word of -EINVAL (-22) |
| CsumDiff.CsumDiffInlined | xdp_progs/includes/inline_csum.h:212-237 | the same with 32-bit sizes and a signed result |
| CsumDiff.HelpersAgree | xdp_progs/includes/inline_csum.h:212-237 | the inlined helper and the runtime helper return the same 64-bit word whenever the sizes and their sum fit in 32 bits |
| CsumDiff.DiffCongruence | module/helpers.c:263-291 | the difference is seed + sum(to) - sum(from) modulo 0xffff |
| CsumDiff.UpdateKeepsValid | module/helpers.c:273-290 | replacing words of a valid message and updating its checksum through the helper (RFC 1624, section 3) gives a valid message, except exactly when zeros are put in, everything else outside the checksum is zero, and the old checksum and the replaced bytes are not all ones |
| CsumDiff.UpdateInPlace | module/helpers.c:273-290 | an update made by calling the helper on a message: the new words are in place, nothing else but the checksum changes, and a valid message stays valid under exactly that condition |
| CsumDiff.UpdateCanInvalidate | module/helpers.c:273-290 | a valid message that an update makes invalid |
| OnesComplement.StoredChecksumVerifies | xdp_progs/xdping.bpf.c:53-65 | storing the complemented sum in a cleared field makes any message verify |
| OnesComplement.OneFoldVerifies | xdp_progs/xdp_tx_iptunnel.bpf.c:141-146 | a word sum folded only once gives a verifying checksum if and only if its two halves add up without a carry |
| XxHash.StripesEnd | xdp_progs/xdp_hash_sum.bpf.c:92-94 | the tail after the stripes has fewer than 16 bytes |
| XxHash.AvalancheInverts | xdp_progs/xdp_hash_sum.bpf.c:57-63 | the avalanche can be undone: it permutes the 32-bit words |
| XxHash.MixWordInverts | xdp_progs/xdp_hash_sum.bpf.c:75-79 | the four-byte step can be undone for every input word |
| XxHash.MixByteInverts | xdp_progs/xdp_hash_sum.bpf.c:75-79 | the one-byte step can be undone for every input byte |
| XxHash.FinalizeInverts | xdp_progs/xdp_hash_sum.bpf.c:75-80 | finalize can be undone for every tail |
| XxHash.FinalizeInjective | xdp_progs/xdp_hash_sum.bpf.c:75-80 | for every tail different start values end in different results |
| XxHash.SeedsTellApart | xdp_progs/xdp_hash_sum.bpf.c:92-94 | inputs under 16 bytes hash differently under different seeds |
| XxHash.TailByteCounts | xdp_progs/xdp_hash_sum.bpf.c:75-80 | changing one byte of the tail changes the result of finalize |
| XxHash.RoundInjective | xdp_progs/xdp_hash_sum.bpf.c:53-55 | a stripe round is injective in the accumulator and in the input word |
| XxHash.MergeTellsLanesApart | xdp_progs/xdp_hash_sum.bpf.c:85-85 | states that differ in exactly one accumulator merge to different words |
| XxHash.LaneDifferenceSurvives | xdp_progs/xdp_hash_sum.bpf.c:82-86 | a difference in one accumulator survives all later stripes and the merge |
| XxHash.StripeByteCounts | xdp_progs/xdp_hash_sum.bpf.c:82-86 | a changed byte changes the stripe loop's result if and only if it lies before len & ~0xF: the loop reads exactly the whole stripes |
| XxHash.EveryByteCounts | xdp_progs/xdp_hash_sum.bpf.c:92-94 | for every length and seed, changing any single byte changes the hash: each byte is read |
| XxHash.LaneByLane | xdp_progs/xdp_hash_sum.bpf.c:82-86 | the recursive stripe loop is four independent folds: accumulator j reads the words at 16 i + 4 j of stripe i, in order |
| XxHash.HashIs | xdp_progs/xdp_hash_sum.bpf.c:82-94 | for every input and seed the hash is finalize of the merged four folds, begun at seed + P1 + P2, seed + P2, seed and seed - P1, or of seed + P5 for less than a stripe, plus the length, over the rest |
| XxHash.KnownHashes | xdp_progs/xdp_hash_sum.bpf.c:44-94 | the empty input hashes to 0x02CC5D05 and a text of two stripes, one word and three bytes to 0xE2293B2F, the values of xxHash32 |
| Packets.CsumFoldHelper | xdp_progs/xdping.bpf.c:53-57 | two folds and a complement of a 32-bit sum |
| Packets.RangeChecksum | xdp_progs/xdping.bpf.c:59-65 | the complemented sum of the range, through the checksum helper |
| Packets.PatchedChecksumVerifies | xdp_progs/xdping.bpf.c:129-130 | a range checksum written into a cleared field of the same range makes the range verify |
| Xdping.XdpPass | xdp_progs/xdping.bpf.c:107-133 | exactly the packets of at least 98 bytes with ethertype 0x0800 and protocol 1 are sent back, rewritten as a reply; every other packet passes unchanged |
| Xdping.ReplyBytes | xdp_progs/xdping.bpf.c:118-132 | where the bytes of a reply come from: link and network addresses exchanged, type 0, and everything else but the checksum the request's |
| Xdping.SwapSrcDstMac | xdp_progs/xdping.bpf.c:37-51 | the two link addresses change places and nothing else moves |
| Xdping.HeaderStaysValid | xdp_progs/xdping.bpf.c:125-127 | exchanging the addresses keeps the sum of the IPv4 header, so its checksum is valid after if and only if it was before |
| Xdping.EchoVerifies | xdp_progs/xdping.bpf.c:128-130 | the ICMP checksum of every reply verifies over 64 bytes |
| Xdping.ReplyTwice | xdp_progs/xdping.bpf.c:118-132 | a reply to the reply has the original link and network headers and the same ICMP message, and is accepted again |
| LoadBalancer.CalculateChecksum | xdp_progs/xdp_lb.bpf.c:356-362 | the sum of the bytes modulo 2^32 |
| LoadBalancer.XdpPass | xdp_progs/xdp_lb.bpf.c:427-530 | the verdict of every packet and map state, and the packet sent: addresses, header checksum, payload hash |
| LoadBalancer.ForwardedIff | xdp_progs/xdp_lb.bpf.c:427-503 | exactly which packets are forwarded, and to and from whom, by their length, protocol, hash and map entries |
| LoadBalancer.TargetKeyIsParity | xdp_progs/xdp_lb.bpf.c:414-421 | the low bit of the exclusive or of the three loaded fields is the parity of bytes 26, 34 and 36 |
| LoadBalancer.PayloadSent | xdp_progs/xdp_lb.bpf.c:514-526 | bytes 34 to 38 are the sum, in host order, of the 60 bytes that were there before, and bytes 38 to 42 their hash with that sum as seed |
| LoadBalancer.HeaderVerifies | xdp_progs/xdp_lb.bpf.c:506-514 | whatever was received, and for every address pair, the 20-byte header sent sums to 0xffff |
| LoadBalancer.OnlyAddressesChange | xdp_progs/xdp_lb.bpf.c:506-524 | apart from addresses, header checksum and eight payload bytes the packet is unchanged; read in network order, bytes 26 to 30 and 30 to 34 are the addresses of the pair |
| IpTunnel.HandleIpv4 | xdp_progs/xdp_tx_iptunnel.bpf.c:77-151 | the verdict of every packet and map state; on success the buffer is the encapsulated packet |
| IpTunnel.EncapsulatedIff | xdp_progs/xdp_tx_iptunnel.bpf.c:38-114 | exactly which packets are encapsulated, and for which tunnel: the entry for protocol, bytes 30 to 34 and, for a complete TCP or UDP header, the port in bytes 36 and 37 |
| IpTunnel.SetEthhdr | xdp_progs/xdp_tx_iptunnel.bpf.c:67-75 | link header 20 bytes further ahead: old destination as source, tunnel address as destination |
| IpTunnel.WriteOuter | xdp_progs/xdp_tx_iptunnel.bpf.c:130-139 | the outer header fields, written over the old link header; the identification keeps the bytes that were there |
| IpTunnel.SumHeader | xdp_progs/xdp_tx_iptunnel.bpf.c:141-144 | the loop adds up the ten words of the outer header |
| IpTunnel.OriginalIntact | xdp_progs/xdp_tx_iptunnel.bpf.c:116-146 | the original IP packet follows the outer header byte for byte, so stripping the 20 bytes gives it back |
| IpTunnel.OuterBytes | xdp_progs/xdp_tx_iptunnel.bpf.c:116-146 | every field of the two new headers but the checksum, by value: addresses, version, length 20 more than the packet's, time to live, protocol |
| IpTunnel.OuterVerifies | xdp_progs/xdp_tx_iptunnel.bpf.c:141-146 | the outer header verifies if and only if the two halves of its 32-bit sum stay at or below 0xffff together |
| IpTunnel.CarryCanBeLost | xdp_progs/xdp_tx_iptunnel.bpf.c:146-146 | a packet and a tunnel for which the single fold loses a carry and the outer header does not verify |
| UdpChecksum.IpFastCsum | afxdp/l2fwd/xdpsock.c:831-834 | the third copy of do_csum, over an IPv4 header: stored in the cleared field it makes the header verify |
| UdpChecksum.From64To32 | afxdp/l2fwd/xdpsock.c:854-861 | two folds of a 64-bit sum keep its one's-complement value |
| UdpChecksum.SumBound | afxdp/l2fwd/xdpsock.c:903-904 | the words of a datagram of up to 131074 bytes, far above MAX_PKT_SIZE, never overflow the 32-bit sum |
| UdpChecksum.UdpCsum | afxdp/l2fwd/xdpsock.c:896-907 | the folded sum of pseudo-header and datagram, an odd length taking in the byte after the datagram |
| UdpChecksum.PseudoHeaderSum | afxdp/l2fwd/xdpsock.c:870-883 | (proto + len) << 8 has the value of the two byte-swapped words of the pseudo-header |
| UdpChecksum.UdpVerifies | afxdp/l2fwd/xdpsock.c:1003-1006 | after the store, pseudo-header and datagram sum to 0xffff (RFC 768) if and only if the byte that pads an odd length is zero |
| UdpChecksum.ByteBehindCounts | afxdp/l2fwd/xdpsock.c:903-904 | an odd length with a byte behind it that is not zero, for which the result does not verify |
| PacketGenerator.MemSet32 | afxdp/l2fwd/xdpsock.c:735-749 | whole words and then single bytes give the pattern over any size; every whole word, read in network order, is the value |
| PacketGenerator.WriteIp | afxdp/l2fwd/xdpsock.c:975-989 | the IPv4 header with its checksum follows the link header |
| PacketGenerator.UdpCheckIs | afxdp/l2fwd/xdpsock.c:1003-1006 | in a buffer that is zero behind the packet, udp_csum is the checksum of pseudo-header and datagram for odd sizes too |
| PacketGenerator.GenEthHdrData | afxdp/l2fwd/xdpsock.c:927-1007 | every byte of the generated buffer, for all options that the program accepts |
| PacketGenerator.GeneratedFields | afxdp/l2fwd/xdpsock.c:927-1001 | what stands where in the buffer, read in network order: addresses, ethertypes, VLAN tag, lengths, ports, magic number, and the pattern in every word of the filling |
| PacketGenerator.GeneratedVerifies | afxdp/l2fwd/xdpsock.c:987-1006 | for every accepted packet size and all other options the IPv4 header and the UDP datagram that are generated verify |
| Rings.WrapAroundHarmless | afxdp/l2fwd/xdpsock.c:1063-1070 | indices that wrap at 2^32 have the same slot and the same distance as unbounded ones, when the ring size divides 2^32 |
| Rings.Slot | afxdp/l2fwd/xdpsock.c:1467-1469 | masking a 32-bit index picks the slot of the unbounded one, for every power of two as ring size |
| Rings.Gap | afxdp/l2fwd/xdpsock.c:1450-1455 | the 32-bit difference of two wrapped indices is their distance |
| Rings.ProdRing.Reserve | afxdp/l2fwd/xdpsock.c:1455-1464 | all requested entries or none, depending on the room that the refreshed consumer index shows |
| Rings.ProdRing.Put | afxdp/l2fwd/xdpsock.c:1467-1469 | writing a reserved entry overwrites nothing that is still to be read |
| Rings.ConsRing.Peek | afxdp/l2fwd/xdpsock.c:1450-1450 | advances only the cached index, by as many entries as were seen, refreshing the view when all were peeked |
| Rings.ConsRing.Get | afxdp/l2fwd/xdpsock.c:1784-1785 | a peeked entry is what was written at its index |
| Fragments.OneStartPerPacket | afxdp/l2fwd/xdpsock.c:1794-1797 | a run of descriptors has one start per complete packet, and one for a packet still open |
| Fragments.StartsAreStarts | afxdp/l2fwd/xdpsock.c:1794-1797 | an index is a start if and only if it is the first or follows an end of packet |
| Fragments.StartsAscend | afxdp/l2fwd/xdpsock.c:1794-1797 | no start is listed twice |
| Fragments.WholePackets | afxdp/l2fwd/xdpsock.c:1808-1812 | every run of descriptors is a sequence of whole packets followed by its open fragments |
| Fragments.ForwardStep | afxdp/l2fwd/xdpsock.c:1784-1813 | one loop round keeps nb_frags equal to the number of open fragments and runs the eBPF program exactly on starts |
| Fragments.ForwardSubmit | afxdp/l2fwd/xdpsock.c:1815-1816 | submitting frags_done leaves exactly the open fragments behind |
| Fragments.SubmittedIsWhole | afxdp/l2fwd/xdpsock.c:1756-1823 | what was submitted is a sequence of whole packets, each descriptor with the address and length received and the continuation mark alone, and the eBPF program has run exactly at the packet starts, once at each |
| Fragments.ForwardedSends | afxdp/l2fwd/xdpsock.c:1799-1809 | a forwarded descriptor has the received address and length, and as its options the continuation mark or nothing |
| Frames.FrameOfStart | afxdp/l2fwd/xdpsock.c:1067-1069 | the address i * frame_size lies in frame i |
| Frames.FrameOfInside | afxdp/l2fwd/xdpsock.c:1058-1071 | every address from i * frame_size to the next frame lies in frame i |
| Frames.BareAddrsSameFrames | afxdp/l2fwd/xdpsock.c:1526-1529 | an address without its offset lies in the same frame |
| Frames.CountIsSize | afxdp/l2fwd/xdpsock.c:1058-1071 | the frames of all owners together are as many as their counts add up to |
| Frames.OneOwner | afxdp/l2fwd/xdpsock.c:1058-1071 | conserved frames have exactly one owner each, and occur there once |
| AfXdp.Xsk.constructor | afxdp/l2fwd/xdpsock.c:1024-1118 | a new socket with rings of its own is ready for l2fwd and for rx_drop |
| AfXdp.Xsk.PopulateFillRing | afxdp/l2fwd/xdpsock.c:1058-1071 | the fill ring holds the addresses i * frame_size of frames 0 to n - 1 in order, as many as it has entries |
| AfXdp.Xsk.ReserveFill | afxdp/l2fwd/xdpsock.c:1455-1465 | in every reachable state the first reservation of the fill ring succeeds, for as many frames as were received or completed |
| AfXdp.Xsk.SettleOutstanding | afxdp/l2fwd/xdpsock.c:1473-1473 | outstanding_tx never goes below zero |
| AfXdp.Xsk.CompleteTxL2fwd | afxdp/l2fwd/xdpsock.c:1426-1475 | completed frames go back to the fill ring in completion order, at most a batch of them, at least one if there is any; outstanding_tx drops by their number |
| AfXdp.Xsk.WaitForRoom | afxdp/l2fwd/xdpsock.c:1772-1782 | the wait for the tx ring keeps everything in every round, with the kernel at work, and ends with all entries reserved or none |
| AfXdp.Xsk.ForwardOne | afxdp/l2fwd/xdpsock.c:1784-1813 | one descriptor is forwarded in its place with its address and length, the eBPF program runs on the first fragment only, and an end of packet returns the number of its fragments |
| AfXdp.Xsk.ForwardBatch | afxdp/l2fwd/xdpsock.c:1784-1822 | a batch that cuts packets at both ends leaves exactly its open fragments reserved and unreleased, and the statistics count whole packets and fragments |
| AfXdp.Xsk.L2fwd | afxdp/l2fwd/xdpsock.c:1754-1823 | one call, interleaved with any kernel steps, keeps frame conservation, the meaning of outstanding_tx and the forwarding state, whether it is done or still waiting for room; it takes up at most a batch, at least one descriptor if there is any, and forwards all of them when it is done |
| AfXdp.Xsk.Resume | afxdp/l2fwd/xdpsock.c:1772-1823 | the rest of a call from any round of its wait: all received descriptors are forwarded, or none yet |
| AfXdp.Xsk.L2fwdAll | afxdp/l2fwd/xdpsock.c:1825-1848 | any number of calls, each as long in its wait as the kernel makes it, keep all of it |
| AfXdp.ForwardFromStart | afxdp/l2fwd/xdpsock.c:1754-1848 | every state reached from a new socket has one owner for each frame, and outstanding_tx counts the frames on their way |
| AfXdp.Xsk.OutstandingIsInFlight | afxdp/l2fwd/xdpsock.c:1473-1473 | between and within calls outstanding_tx is the number of frames in the tx ring, the sending kernel and the completion ring |
| AfXdp.Xsk.FragmentsPending | afxdp/l2fwd/xdpsock.c:1758-1816 | nb_frags is both the number of reserved but unsubmitted tx entries and of forwarded but unreleased rx entries, which are the open fragments |
| AfXdp.Xsk.EachFrameOwnedOnce | afxdp/l2fwd/xdpsock.c:1058-1071 | in every reachable state every frame has exactly one owner: fill ring, kernel receive side, rx ring with pending fragments, tx ring, kernel send side, completion ring |
| AfXdp.Xsk.ForwardsWholePackets | afxdp/l2fwd/xdpsock.c:1756-1823 | in every reachable state the submitted descriptors are whole packets; each has the address and length of the descriptor received at its index, and options 1 or 0 as that one is continued or not; the eBPF program has run once for every packet begun, at its first fragment |
| AfXdp.Xsk.RxDrop | afxdp/l2fwd/xdpsock.c:1498-1542 | what was received goes back to the fill ring as bare addresses in order, at most a batch, at least one if there is any; conservation is kept and packets and fragments are counted |
| AfXdp.Xsk.RxDropAll | afxdp/l2fwd/xdpsock.c:1544-1570 | any number of calls return all that was received, in order, with the kernel at work |
| Probing.AtNext | xdp_progs/includes/hash_map.h:66-67 | the probe comes back to its start after exactly as many steps as there are buckets, so each bucket is visited at most once |
| Probing.HashIsPolynomial | xdp_progs/includes/hash_map.h:20-26 | the hash of every key is the sum of key[i] * 31^(n - 1 - i) modulo 2^32 |
| Probing.ClearIsHit | xdp_progs/includes/hash_map.h:48-69 | a stored key with no gap and no equal key on its way is found in its bucket |
| Probing.ProbePassed | xdp_progs/includes/hash_map.h:48-69 | everything before the end of a probe was filled with other keys |
| Probing.FoundIffStored | xdp_progs/includes/hash_map.h:48-69 | under the probe invariant a key is found if and only if it is stored, and where it is stored |
| Probing.UpdateKeepsInv | xdp_progs/includes/hash_map.h:71-100 | an update keeps the probe invariant |
| Probing.DeleteKeepsInvIff | xdp_progs/includes/hash_map.h:102-124 | a delete keeps the probe invariant if and only if no other stored key's way crosses the freed bucket |
| MapRefinement.AbsLookup | xdp_progs/includes/hash_map.h:48-69 | a lookup is a lookup in the map that the table stands for |
| MapRefinement.AbsUpdate | xdp_progs/includes/hash_map.h:71-100 | an update puts the key's value into the map, and fails, changing nothing, exactly when the key is absent and the map is full |
| MapRefinement.UpdateSucceeds | xdp_progs/includes/hash_map.h:86-99 | an update succeeds if and only if the key is present or a bucket is empty |
| MapRefinement.CountIsSize | xdp_progs/includes/hash_map.h:126-134 | the number of filled buckets is the size of the map |
| MapRefinement.RefinesMapWithoutDeletes | xdp_progs/includes/hash_map.h:48-134 | every history of updates, lookups and counts on a fresh table answers like a finite map of bounded size |
| MapRefinement.RefinesMap | xdp_progs/includes/hash_map.h:48-134 | the same for histories with deletes each of which meets the condition when it is made |
| MapRefinement.AlwaysLikeMapIff | xdp_progs/includes/hash_map.h:48-134 | after every step of a history all lookups answer like the map if and only if every delete met the condition when it was made |
| MapRefinement.AbsDelete | xdp_progs/includes/hash_map.h:102-124 | a delete that meets the condition removes its key from the map and nothing else |
| MapRefinement.DeleteRefinesIff | xdp_progs/includes/hash_map.h:102-124 | after a delete all lookups answer like the map without the key if and only if no other stored key's way crosses the freed bucket |
| MapRefinement.CrossedKeyIsLost | xdp_progs/includes/hash_map.h:117-119 | a stored key whose way crosses the freed bucket is no longer found |
| MapRefinement.DeleteCanHideAKey | xdp_progs/includes/hash_map.h:102-124 | a history of four operations in which a lookup misses a key that was written and not deleted |
| MapRefinement.LookupReturnsWritten | xdp_progs/includes/hash_map.h:48-124 | in every history, with any deletes, a value that a lookup returns was written for that very key earlier |
| HashMap.BpfHashMap.constructor | xdp_progs/includes/hash_map.h:5-7 | a zeroed buffer of the given layout is an empty table |
| HashMap.BpfHashMap.Refines | xdp_progs/includes/hash_map.h:48-134 | in every reachable state the byte buffer holds only what was written for its key, and stands for the finite map of its history as long as deletes met the condition |
| HashMap.BpfHashMap.GetElemOffset | xdp_progs/includes/hash_map.h:16-18 | bucket i begins at i * (4 + key_size + value_size) and lies inside the buffer |
| HashMap.OneBucketChanges | xdp_progs/includes/hash_map.h:16-46 | writing inside one bucket's bytes changes no other bucket |
| HashMap.BpfHashMap.HashFunc | xdp_progs/includes/hash_map.h:20-26 | the base-31 hash modulo 2^32 |
| HashMap.BpfHashMap.KeyMatches | xdp_progs/includes/hash_map.h:55-62 | the comparison loop decides whether the bucket holds the key |
| HashMap.BpfHashMap.ElemLookup | xdp_progs/includes/hash_map.h:48-69 | the offset of bytes that were written for the key, in every history; with safe deletes found if and only if the map has the key, with the value it has there |
| HashMap.BpfHashMap.ElemUpdate | xdp_progs/includes/hash_map.h:71-100 | the buffer after the call decodes to the updated table; with safe deletes it succeeds if and only if the map has the key or has room |
| HashMap.BpfHashMap.ElemDelete | xdp_progs/includes/hash_map.h:102-124 | the buffer decodes to the table with the bucket emptied; with safe deletes it succeeds if and only if the map has the key, and the history stays safe if and only if no other stored key's way crosses the bucket |
| HashMap.BpfHashMap.GetElemCount | xdp_progs/includes/hash_map.h:126-134 | the number of filled buckets, with safe deletes the size of the map |
| Prefixes.BitAt | module/lpm_trie.h:183-192 | the bit that a search step tests is the bit that a put of the same address tests |
| Prefixes.ByteIsItsBits | module/lpm_trie.h:189-189 | the eight bits of a byte, in the order in which they are tested, weigh 128, 64, 32, 16, 8, 4, 2 and 1 |
| Prefixes.SamePrefixIsSameBits | module/lpm_trie.h:183-192 | two addresses have the same first n bits if and only if their first n / 8 bytes are equal and the high n % 8 bits of the next |
| Prefixes.AnswersIsBestRoute | module/lpm_trie.h:229-258 | the answer on bit strings is the longest network among the routes put that has the address, compared on bytes, and the first route for it |
| Prefixes.LongestIsLongest | module/lpm_trie.h:229-258 | the longest match is in the table and nothing longer is |
| Prefixes.FirstPutWins | module/lpm_trie.h:207-216 | after any sequence of puts a prefix has the value of its first put, and an empty prefix none |
| Prefixes.LongestAnswers | module/lpm_trie.h:229-258 | the longest match in the table is the longest matching put, the first one of its prefix; there is none if and only if no non-empty put matches |
| LpmTrie.TreeGrows | module/lpm_trie.h:187-206 | a fresh node on a missing link leaves a tree with all other links as they were |
| LpmTrie.Trie.AddBlock | module/lpm_trie.h:118-134 | a further block is chained if and only if there is none or the current one has one cell left |
| LpmTrie.Trie.NodeMalloc | module/lpm_trie.h:114-143 | an empty node that nobody holds, also across the growth of the arena |
| LpmTrie.Trie.LastCellsUnused | module/lpm_trie.h:118-136 | in every reachable trie the last cell of each block is unused |
| LpmTrie.Trie.constructor | module/lpm_trie.h:150-155 | an empty trie |
| LpmTrie.Trie.AddChild | module/lpm_trie.h:187-206 | the new node hangs at the end of the path and every other path keeps its node |
| LpmTrie.Trie.Store | module/lpm_trie.h:207-216 | the first value of a node stays; a different later value is reported as a collision |
| LpmTrie.Trie.Put | module/lpm_trie.h:181-218 | the route is added to the history of the trie and its prefix to the table, unless the prefix is known or empty |
| LpmTrie.Trie.SearchStep | module/lpm_trie.h:235-254 | following one link and remembering a loaded value keeps the longest match so far; a missing link means that no longer prefix is stored |
| LpmTrie.Trie.Search | module/lpm_trie.h:229-258 | after any sequence of puts: found if and only if the address lies in some network put with a length above 0, compared on its bytes, with the value of the longest such network as first put; otherwise the caller's variable stays |
| LpmTrie.Trie.Destroy | module/lpm_trie.h:162-171 | every block is freed exactly once and in order, no block is read after it was freed, and the blocks hold every node of the tree |
| Recency.StepKeeps | module/LRUCache11.hpp:115-127 | every operation keeps the list a prefix of the keys by last use, with distinct keys and a bounded size |
| Recency.StepFull | module/LRUCache11.hpp:115-127 | every operation but a removal keeps the most recent maxSize keys |
| Recency.ListIsRecent | module/LRUCache11.hpp:115-231 | in every run the list is a prefix of the keys ordered by last insert or hit, its size is at most maxSize or below the hard limit, and without removals it holds at least min(maxSize, number seen) keys |
| Recency.HistoryIsByUse | module/LRUCache11.hpp:115-127 | in every run the keys seen are ordered by the position of their last insert or hit, latest first |
| Recency.HistoryIsCurrent | module/LRUCache11.hpp:115-127 | the keys seen carry the values last inserted and not removed since |
| Recency.HitsAreCurrent | module/LRUCache11.hpp:197-213 | a hit returns the last inserted value, and without removals every key among the maxSize most recent ones hits |
| Recency.InsertIs | module/LRUCache11.hpp:115-127 | an absent key is put in front of the whole list while there is room below the hard limit, and otherwise the list is cut to exactly maxSize |
| Recency.HoldsAllIff | module/LRUCache11.hpp:115-127 | from any reachable list on, through inserts and lookups, the cache holds every key it had or that was inserted if and only if their number is at most maxSize, or below the hard limit, or maxSize is 0 |
| LruCache.AgreeIsFind | module/LRUCache11.hpp:205-213 | the index has exactly the keys of the list, each at its position |
| LruCache.Cache.Insert | module/LRUCache11.hpp:115-127 | a known key gets the value and moves to the front; a new one goes to the front of the whole list below the hard limit, and at the limit the list is cut to exactly maxSize; index and list agree |
| LruCache.Cache.Prune | module/LRUCache11.hpp:214-231 | nothing below the hard limit or with maxSize 0, otherwise the list is cut back to maxSize; the result counts the entries dropped |
| LruCache.Cache.TryGet | module/LRUCache11.hpp:205-213 | a hit moves the key to the front and returns the value last inserted for it; a miss leaves the caller's variable |
| LruCache.Cache.Get | module/LRUCache11.hpp:197-204 | the same with an error for a missing key |
| LruCache.Cache.Remove | module/LRUCache11.hpp:172-181 | removes exactly the key, and says whether it was there |
| LruCache.Cache.Clear | module/LRUCache11.hpp:110-114 | empties list and index |
| LruCache.Cache.Contains | module/LRUCache11.hpp:182-185 | whether the key is in the list |
| LruCache.Cache.Size | module/LRUCache11.hpp:102-105 | the length of the list, within the limits in every reachable state |
| LruCache.Cache.Recent | module/LRUCache11.hpp:115-231 | every reachable cache holds the recent part of its history, within the limits and ordered by last insert or hit |
| Json.UnescapeEscape | afxdp/lib/util/json_writer.c:64-91 | the decoder reads every escape back, the quote escape that RFC 8259 does not list included |
| Json.StringBack | afxdp/lib/util/json_writer.c:60-93 | a written string is read back and the text behind it is left |
| Json.NumberBack | afxdp/lib/util/json_writer.c:217-260 | a decimal number is read back when no digit follows |
| Json.TextBack | afxdp/lib/util/json_writer.c:126-210 | every value tree is read back from its text, whatever follows it that is not a digit |
| Json.TextIsUnique | afxdp/lib/util/json_writer.c:126-210 | different trees have different texts, and no text runs into what follows it |
| Json.TextIsClean | afxdp/lib/util/json_writer.c:60-93 | no text of any tree holds a tab, line feed, carriage return, form feed or backspace as it is |
| JsonWriter.ItemsTextAppend | afxdp/lib/util/json_writer.c:50-55 | one more item adds a comma where needed and its text |
| JsonWriter.Writer.Eor | afxdp/lib/util/json_writer.c:50-55 | writes the pending separator and leaves a comma pending |
| JsonWriter.Writer.Puts | afxdp/lib/util/json_writer.c:60-93 | appends the quoted and escaped string |
| JsonWriter.Writer.Begin | afxdp/lib/util/json_writer.c:126-132 | writes the separator and the bracket, nests one deeper, leaves nothing pending |
| JsonWriter.Writer.End | afxdp/lib/util/json_writer.c:134-143 | writes the bracket, nests one less, leaves a comma pending |
| JsonWriter.Writer.Name | afxdp/lib/util/json_writer.c:146-156 | writes separator, name and colon, leaves nothing pending |
| JsonWriter.Writer.EmitArray | afxdp/lib/util/json_writer.c:180-193 | start, items and end append the text of the array |
| JsonWriter.Writer.EmitObject | afxdp/lib/util/json_writer.c:170-178 | start, named values and end append the text of the object |
| JsonWriter.Writer.Emit | afxdp/lib/util/json_writer.c:126-260 | writing any tree appends the pending separator and the tree's text, restores the depth and leaves a comma pending; no assertion of the writer fails |
| JsonWriter.WriteDocument | afxdp/lib/util/json_writer.c:96-118 | a whole session with one tree yields a text from which the tree can be read back |
| DpdkPorts.CheckPortPairConfig | dpdk/main.c:634-670 | accepts exactly the lists whose ports are enabled and present and whose pairs are apart, and narrows the mask to their ports |
| DpdkPorts.PairDestinations | dpdk/main.c:809-814 | every pair is wired both ways and no other port is |
| DpdkPorts.WiredInvolution | dpdk/main.c:809-814 | a table wired pair by pair is an involution on the ports of the pairs |
| DpdkPorts.AlternateDestinations | dpdk/main.c:816-833 | enabled ports are wired two by two in device order, a last odd one to itself, which makes the table an involution on them |
| DpdkPorts.NeighboursAre | dpdk/main.c:816-833 | pair j is the enabled ports 2 j and 2 j + 1 |
| DpdkPorts.NextLcore | dpdk/main.c:847-853 | the next enabled core with room, or none exactly when all enabled cores are full |
| DpdkPorts.AssignLcores | dpdk/main.c:841-865 | the cores' lists together are the enabled ports in order, each port once, none longer than the limit and only on enabled cores, and a core gets a port only when all earlier enabled ones are full; nb_lcores counts the non-empty ones; it fails if and only if there are more ports than room |
| DpdkPorts.FlatEachOnce | dpdk/main.c:841-865 | lists whose concatenation has no repetition hold each port in exactly one list |
| DpdkPorts.Configure | dpdk/main.c:784-865 | which configurations are rejected and why; for an accepted one the destinations are an involution on the finally enabled ports and every one of them is received by exactly one core |

## Left out

- AfXdp.Xsk.L2fwd: the loop that waits for room in the tx ring is cut off after `spins` rounds, because its end depends on the kernel, and goes on in Resume; whether the wait ever ends is not claimed.
- AfXdp.Xsk.ReserveFill: the retry loops around the fill-ring reservations are not modelled, because they are proved never to be entered.
- AfXdp.Xsk.constructor: one socket with its own rings and frames; `nb_frags` is shared by all sockets of the program, so the fragment invariant does not hold for several.
- AfXdp.Xsk.Kernel: kernel steps are atomic between ring accesses and publish the consumer index with each frame taken; memory ordering is not modelled.
- Rings.ProdRing.Reserve: the ring operations of libbpf are not in the repository and are modelled from their use here, as are Put, Submit, Peek, Get and Release. Ring sizes are powers of two, as indexing with a mask requires; the fields count without bound, and the operations see them modulo 2^32.
- AF_XDP: `complete_tx_only`, transmit-only mode, its frame contents and wakeups, polling, and the verdict of the eBPF program, which `l2fwd` ignores.
- Checksum.CsumPartial64: the load of a word on an unmapped page; the bytes that the last load reads behind the buffer must exist.
- Checksum.DoCsum: big-endian branches, which are commented out in the source.
- CsumDiff.CsumDiffRuntime: sizes that pass the guard only because their sum wraps around, for which the source would write behind its scratch pad; the same holds for CsumDiff.CsumDiffInlined.
- UdpChecksum.UdpVerifies: the convention of RFC 768 that a computed zero is sent as all ones is not in the source and not in the model.
- PacketGenerator.GeneratedVerifies: with time stamps on, the transmit loop later overwrites twelve bytes of each packet without updating the UDP checksum; that loop is not modelled.
- UdpChecksum.UdpCsum: the result is stated for up to 131074 bytes; beyond that the 32-bit sum of the source can overflow.
- IpTunnel.HandleIpv4: whether the head of the packet could be moved is a parameter; packet counters and trace output are left out.
- LoadBalancer.XdpPass: the unused TCP checksum and the inlined variant of the program, which differs.
- Xdping.XdpPass: the commented-out client and server programs.
- XxHash.EveryByteCounts: collisions of inputs that differ in more than one byte exist and nothing is claimed about them.
- HashMap.BpfHashMap.constructor: buffers of 2^32 bytes or more, where the 32-bit offsets of the source wrap.
- LpmTrie.Trie.NodeMalloc: allocation never fails, where the source would exit; a new block's cells exist from the start instead of being raw memory.
- LpmTrie.Trie.Destroy: releasing memory is modelled as the sequence of blocks released.
- Trie: the map interface in module/maps.cpp, which counts the prefix length in bytes on update and includes a length field in the address.
- LruCache.Cache.TryGet: locks, moves of values and the variants that copy or return references; `get`, which does not compile when used.
- JsonWriter.Writer.Emit: nesting of 2^32 levels, where the depth counter wraps; pretty printing, floating-point and hexadecimal numbers, and the formatting done by printf, whose decimal text is taken as given.
- JsonWriter.Writer.Puts: strings are sequences of characters; encodings and control characters without an escape are copied as the source copies them.
- DpdkPorts.Configure: option parsing is left out; the masks, pairs and the number of queues per core, 1 to 15 as `l2fwd_parse_nqueue` accepts it, are parameters. Fewer than 32 devices, as the shifts of the source require. Port masks are sets of bit numbers.
- DPDK packet forwarding and statistics: the destination port is never assigned there and dropped buffers are not returned, so there is no conservation to prove.
- `bpf_xdp_adjust_head` and `bpf_xdp_adjust_tail` in module/helpers.c, loaders, shared memory, just-in-time compilation, argument parsing, statistics output, firewall programs and IP tables: input and output, or only easy members.
