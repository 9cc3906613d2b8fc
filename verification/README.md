# Verification of learnet's protocol code

learnet is a small user-space network stack. This project models its four hardest parts in Dafny
and proves what they promise to their callers.

**The TCP byte stream** (`ipstack/tcp_recv.go`, `ipstack/tcp_send.go`, `ipstack/net_tcp.go`).
`Assembler.dfy`, `Receiver.dfy` and `Sender.dfy` each hold a description over unbounded stream
positions (`Assembly`, `Receiving`, `Sending`) and the program's own objects, which write and shift
arrays and count in 32-bit numbers (`TcpAssembler`, `TcpReceiver`, `TcpSender`); every method of the
objects is proved to do what the description says. `Connection.dfy` joins two endpoints by a network
that loses, duplicates and reorders packets; `StreamTheorems.dfy` says what then holds in every run:
bytes read are a prefix of bytes written, end of stream and success mean delivery, and the panics of
the write buffer happen exactly after an expired write deadline.

**IPv4 fragmentation and reassembly** (`ipstack/ip_frag.go` over `ipstack/ip.go`). `IPv4.dfy` has the
packet fields and the in-place setters, `Fragmentation.dfy` the splitting loop and the restored
packet, `Defragmentation.dfy` the table of reconstructions, as values and as the program's objects.
`DefragTheorem.dfy` says when one packet is ready: exactly when each of its fragments has arrived
once, whatever the order. `DefragRuns.dfy` proves that in every run, with the fragments of any number
of packets interleaved, permuted, repeated and expiring at will, the table is one independent small
machine for each packet. `DefragDelivery.dfy` draws the usual case from that: where nothing is
repeated and no unfinished packet expires, every packet comes out whole, once, when its last fragment
arrives.

**The DNS codec** (`dnsproto`). `DomainNames.dfy` has names and their text form, `Wire.dfy` fields,
compressed names, the writer and the reader, `Messages.dfy` headers, questions, records and messages
as values, `DnsCodec.dfy` the encoder and decoder over the reader and the writer. `Batches.dfy` has
what is true of lists of items whatever they are; `DnsTheorems.dfy` and `MessageTheorems.dfy` have
the round trips, and what decoding comes back with for every input. `DnsRecords.dfy` says byte for
byte what headers, questions and records decode to, compressed names in a record's data included.

**Checksums and packet constructors** (`ipstack/checksum.go`, `ipstack/tcp.go`, `ipstack/udp.go`).
`Checksum.dfy` has the exact arithmetic of the checksum and its overflow bound, `Transport.dfy` the
pseudo-header checksum, `Tcp4.dfy` and `Udp4.dfy` the new packets. `SegmentPackets.dfy` closes the
gap to the byte stream: with a segment size of at most 65495 bytes, and the program uses 512, every
segment a connection sends fits a packet and is, byte for byte, the segment its peer reads.

`Layouts.dfy` states where the packet fields stand on the wire, in numbers.

`RefCount.dfy` is the reference-counted close of a tunnel (`tunnet/utun_posix.go`) for any number of
threads. `Bytes.dfy`, `Circular.dfy` and `Wrappers.dfy` are shared. `dfyconfig.toml` lists the whole
project.

## Assumptions

- Sections held under a lock are atomic steps. A step of a connection endpoint is one of: a Write or
  Close up to its wait, the end of that wait, the expiry of its deadline, the sending of any segment
  ever handed to the retransmission timer, the sending of a bare acknowledgement, the delivery of a
  packet, a Read, a failure of either half.
- Sequence numbers are 32 bits wide and wrap any number of times. A delivered packet obeys a segment
  lifetime (section 3.3 of RFC 793): its data is not more than 2^32 - 65536 positions behind the
  receiver, its acknowledgement less than 2^32 - Remaining behind the sender. `StaleByteBound` and
  `StaleAckBound` prove that both bounds are exact.
- One Write carries less than 2^32 bytes. `FullAckDropsWhatItAcknowledges` proves that the write
  buffer loses bytes without acknowledgement exactly from that length on.
- Packets handed to the fragment code are valid, as its documentation asks. The mtu is any number,
  except that one below the header length makes the splitting loop slice with a negative length when
  there is a payload that may be split (`SplitPanics`).
- The clock is an argument, and any. While a packet is being collected, no fragment of another packet
  with the same source and identification arrives; a later packet may have them again.
- A TCP packet that the connection reads has a data offset above 3, which its validity test does not
  ask for: the flags are read from a header cut off at the offset, and below that the program panics.

## Where the code differs from what it says

- `ipstack/ip_frag.go:182` is meant to drop a fragment received twice. The search before it finds the
  first larger offset, so the test cannot succeed (`AddFragment` proves the branch dead). A duplicate
  is kept, and until the reconstruction expires its packet is not delivered, whatever else arrives
  (`BlockedDeliversNothing`); a packet is ready exactly when each fragment has arrived once
  (`ReadyExactlyWhenEachOnce`, and `FirstFragmentTwice` for an input).
- `ipstack/checksum.go:13-18` sums in 32 bits without looking at carries. From 131075 bytes on there
  is data of every length with a wrong checksum (`SomeWrongBeyond`); `CorrectWhen` says exactly which.
- `ipstack/tcp_recv.go:174-177` names -2 as the value of `fin` before a FIN is seen; Skim subtracts
  from it all the same, so every value up to -2 means that.
- `ipstack/tcp_send.go:113-117` leaves data in the write buffer when a deadline expires; the next call
  reaches the panic in SetData or SetEOF (`PanicExactlyAfterExpiry`, `ExpiredWriteThenPanic`).
- `dnsproto/transcoding.go:116-122` cannot read zero bytes at the very end of a message, so a message
  whose last record has no data does not decode (`DecodeOfEncodedMessage` says exactly when,
  `EmptyRecordDoesNotDecode` gives one).

## Model

| member | source | states |
|---|---|---|
| Circular.WrapOffset | ipstack/tcp_send.go:231-234 | the difference of two wrapped sequence numbers is the wrapped difference of the stream positions, whatever the initial number and however often it wrapped |
| Assembly.SkimIsLongestRun | ipstack/tcp_recv.go:213-226 | Skim takes at least n bytes if and only if the first n positions are received and lie before the end of stream, for every n the limit and the window allow |
| Assembly.SkimLengthIs | ipstack/tcp_recv.go:217-226 | a received run that cannot be extended is exactly what Skim takes |
| Assembly.EofExactlyAtFin | ipstack/tcp_recv.go:213-221 | for limits below 65536, end of stream is signalled if and only if every position before it is received and fits the limit, even a limit of zero |
| Assembly.SkimKeepsValid | ipstack/tcp_recv.go:227-237 | a skim moves the position by what it took, plus one exactly when it consumes the end of stream, and keeps window and FIN index in range |
| Assembly.ViewAdd | ipstack/tcp_recv.go:191-209 | overwriting array slots by 32-bit offsets is storing a segment at its stream positions |
| Assembly.ViewSlide | ipstack/tcp_recv.go:231-237 | shifting buffer, mask and FIN index down is moving the window over the stream |
| Assembly.ViewSkim | ipstack/tcp_recv.go:217-226 | where the skimming loop stops is the longest contiguous run, and end of stream is seen exactly there |
| Assembly.AddStoresTheCut | ipstack/tcp_recv.go:191-209 | a segment of the stream, at whatever wrap of the sequence numbers, adds exactly its bytes inside the window and the end of stream if it fits; the assembler goes on agreeing with the stream |
| Assembly.AddAllStoresTheCuts | ipstack/tcp_recv.go:191-209 | after any sequence of segments the assembler holds exactly the union of their bytes inside the window |
| Assembly.ArrivalOrderIrrelevant | ipstack/tcp_recv.go:191-209 | two arrivals of the same set of segments, in any order and with any repetition, leave the same state |
| Assembly.StaleByteBound | ipstack/tcp_recv.go:196-199 | an old byte is mistaken for a new one if and only if it is more than 2^32 - 65536 positions behind |
| TcpAssembler.ShiftDown | ipstack/tcp_recv.go:233-234 | an overlapping copy towards the front moves every element down and keeps the tail |
| TcpAssembler.TcpAssembler.constructor | ipstack/tcp_recv.go:181-188 | a new assembler has received nothing and seen no FIN |
| TcpAssembler.TcpAssembler.StoreBytes | ipstack/tcp_recv.go:195-202 | each slot receives the byte of the segment that lands on it, and only such slots change |
| TcpAssembler.TcpAssembler.AddSegment | ipstack/tcp_recv.go:191-209 | the arrays and FIN index after a segment are those of the stream-level Add, for every segment |
| TcpAssembler.TcpAssembler.TakeRun | ipstack/tcp_recv.go:217-226 | the loop collects the stream-level skim and its end-of-stream flag |
| TcpAssembler.TcpAssembler.Slide | ipstack/tcp_recv.go:233-237 | n slots leave at the front and n unreceived ones enter at the back |
| TcpAssembler.TcpAssembler.Drop | ipstack/tcp_recv.go:231-237 | the window moves over n stream positions, with sequence number and FIN index in step |
| TcpAssembler.TcpAssembler.Skim | ipstack/tcp_recv.go:213-239 | data, end-of-stream flag and new state are those of the stream-level skim |
| TcpAssembler.TcpAssembler.Seq | ipstack/tcp_recv.go:242-244 | the sequence number of the first position not yet skimmed |
| TcpReceiver.TcpRecvBuffer.constructor | ipstack/tcp_recv.go:260-265 | an empty buffer of the given capacity |
| TcpReceiver.TcpRecvBuffer.Put | ipstack/tcp_recv.go:269-275 | data that fits is appended to the readable bytes; asked for only where it fits, so the panic is never reached |
| TcpReceiver.TcpRecvBuffer.PutEOF | ipstack/tcp_recv.go:278-280 | records the end of stream |
| TcpReceiver.TcpRecvBuffer.Get | ipstack/tcp_recv.go:285-294 | moves the first bytes that fit to the caller, keeps the rest in order, and reports end of stream exactly when nothing is left and the end was put |
| TcpReceiver.TcpRecvBuffer.Window | ipstack/tcp_recv.go:297-299 | the free space |
| Receiving.HandleFits | ipstack/tcp_recv.go:118-129 | what Skim yields always fits the free space, so Put cannot overflow |
| Receiving.HandleTakesAll | ipstack/tcp_recv.go:118-129 | after a segment the buffer is full, the next byte has not arrived or the stream has ended, and readers are woken |
| Receiving.ReadHandsOut | ipstack/tcp_recv.go:76-105 | what a Read hands out followed by what stays buffered is what was buffered, as much as the caller has room for; end of stream exactly when nothing is left before it; otherwise the recorded failure, or a wait when there is none; an opened window is announced |
| TcpReceiver.SimpleTcpRecv.constructor | ipstack/tcp_recv.go:59-67 | a receiver at position zero of the peer's stream |
| TcpReceiver.SimpleTcpRecv.TryRead | ipstack/tcp_recv.go:76-105 | one attempt of Read has the outcome and leaves the state ReadHandsOut speaks of, and the bytes it reports are in the caller's slice |
| TcpReceiver.SimpleTcpRecv.Handle | ipstack/tcp_recv.go:118-129 | a segment goes through assembler and skim into the buffer as the stream-level step says |
| TcpReceiver.SimpleTcpRecv.Fail | ipstack/tcp_recv.go:131-137 | records the error and wakes readers, touching nothing else |
| TcpReceiver.SimpleTcpRecv.Ack | ipstack/tcp_recv.go:139-143 | the acknowledgement number is that of the first position not yet skimmed |
| TcpReceiver.SimpleTcpRecv.Window | ipstack/tcp_recv.go:145-149 | the advertised window is the free space truncated to 16 bits |
| TcpReceiver.SimpleTcpRecv.Done | ipstack/tcp_recv.go:155-159 | done at the end of stream or after a failure |
| Sending.AckToConserves | ipstack/tcp_send.go:230-246 | the position never goes back, position plus what is outstanding stays the same, and exactly the acknowledged bytes leave the buffer |
| Sending.HandleReadsAck | ipstack/tcp_send.go:230-246 | an acknowledgement, fresh, duplicate or stale within the lifetime, is read from its 32 bits as the stream position it stands for |
| Sending.StaleAckBound | ipstack/tcp_send.go:233-236 | a stale acknowledgement is ignored if and only if it is less than 2^32 - Remaining positions behind |
| Sending.FullAckDropsWhatItAcknowledges | ipstack/tcp_send.go:238-241 | acknowledging Remaining drops exactly that many bytes if and only if the buffer is shorter than 2^32 bytes |
| Sending.HandleWakesWhenDrained | ipstack/tcp_send.go:131-141 | the waiting writer is woken exactly when nothing is outstanding |
| Sending.DrainedWakes | ipstack/tcp_send.go:131-141 | that is once, when the position acknowledged is the end of what is outstanding |
| Sending.NextObeysWindow | ipstack/tcp_send.go:167-185 | a segment goes to the timer if and only if something is outstanding; it starts at the unacknowledged position and carries the next bytes, never more than the window or the segment size and never less when there are more; one byte at a zero window; the end of stream alone |
| Sending.AnswerObeysWindow | ipstack/tcp_send.go:131-141 | what is sent in answer to a packet fills, and never exceeds, the window that packet announced |
| TcpSender.TcpWriteBuffer.constructor | ipstack/tcp_send.go:209-211 | nothing to send at the initial sequence number |
| TcpSender.TcpWriteBuffer.SetData | ipstack/tcp_send.go:214-219 | with nothing pending the data becomes the outstanding bytes |
| TcpSender.TcpWriteBuffer.SetEOF | ipstack/tcp_send.go:222-227 | with nothing pending the end of stream becomes outstanding |
| TcpSender.TcpWriteBuffer.Remaining | ipstack/tcp_send.go:276-281 | one for a pending end of stream, otherwise the length of the buffer modulo 2^32 |
| TcpSender.TcpWriteBuffer.Handle | ipstack/tcp_send.go:230-246 | the 32-bit bookkeeping follows the stream-level reading of the acknowledgement |
| TcpSender.TcpWriteBuffer.Segment | ipstack/tcp_send.go:252-272 | the next segment starts at the unacknowledged position and carries the end of stream or at most maxSize bytes |
| TcpSender.SimpleTcpSend.constructor | ipstack/tcp_send.go:58-67 | a sender at position zero with the peer's window |
| TcpSender.SimpleTcpSend.SendNext | ipstack/tcp_send.go:167-185 | hands the timer the segment NextObeysWindow speaks of |
| TcpSender.SimpleTcpSend.Start | ipstack/tcp_send.go:93-111 | the outcome before the wait, in the order closed, failed, panic, started, and the segment then scheduled |
| TcpSender.SimpleTcpSend.Finish | ipstack/tcp_send.go:119-124 | what a woken Write reports |
| TcpSender.SimpleTcpSend.Handle | ipstack/tcp_send.go:131-141 | acknowledgement, window, next segment and wake-up as the stream-level step says |
| TcpSender.SimpleTcpSend.Fail | ipstack/tcp_send.go:143-149 | records the error and wakes the writer, keeping the buffer |
| TcpSender.SimpleTcpSend.Seq | ipstack/tcp_send.go:155-159 | the sequence number of the first unacknowledged position |
| TcpSender.SimpleTcpSend.Done | ipstack/tcp_send.go:161-165 | done when the end of stream is acknowledged or after a failure |
| Connection.NextIsGenuine | ipstack/tcp_send.go:252-272 | every segment sent is cut from the written stream at its position, with FIN only at the end of a closed stream |
| Connection.AckKeepsCarries | ipstack/tcp_send.go:131-141 | processing any acknowledgement of the network keeps the invariant of a direction |
| Connection.WriteKeepsCarries | ipstack/tcp_send.go:81-125 | Write and Close keep it |
| Connection.SegmentKeepsPrefix | ipstack/tcp_recv.go:118-129 | after any genuine segment, what was read plus what is buffered is still exactly the skimmed prefix of the stream |
| Connection.ReadKeepsPrefix | ipstack/tcp_recv.go:69-112 | and so it is after a Read of any size |
| Connection.SenderStepKeepsCarries | ipstack/net_tcp.go:203-250 | every step of the sending endpoint keeps the invariant, including what it puts on the network |
| Connection.ReceiverStepKeepsCarries | ipstack/net_tcp.go:203-250 | every step of the receiving endpoint keeps it, including the acknowledgements it sends |
| StreamTheorems.StepKeepsInvariant | ipstack/net_tcp.go:203-228 | every step of either endpoint keeps the invariant of both directions |
| StreamTheorems.RunKeepsInvariant | ipstack/net_tcp.go:203-228 | so does every run |
| StreamTheorems.ReadIsPrefixOfWritten | ipstack/net_tcp.go:167-173 | in every reachable state the bytes all Reads handed out are a prefix of what Write accepted; with the buffered bytes they are exactly the prefix the receiver acknowledges, never behind what the sender takes as acknowledged |
| StreamTheorems.AnnouncesItsRoom | ipstack/tcp_recv.go:139-149 | every packet sent acknowledges the first position not passed on and announces no more room than there is, and exactly that below 2^16 |
| StreamTheorems.EofOnlyAtEnd | ipstack/tcp_recv.go:87-93 | a Read that reports end of stream has returned every byte written, and Close was called |
| StreamTheorems.LastReadReportsEof | ipstack/tcp_recv.go:285-294 | once the end has arrived, the Read that takes the last bytes reports it |
| StreamTheorems.DoneMeansDelivered | ipstack/tcp_send.go:161-165 | a sender done without failure has a receiver holding the whole stream and its end |
| StreamTheorems.DoneExactly | ipstack/tcp_send.go:161-165 | either half is done exactly when it failed or the end of its stream has passed |
| StreamTheorems.SendFailureReachesCallers | ipstack/tcp_send.go:143-149 | a failure stops the waiting call with that error and refuses later ones |
| StreamTheorems.ReceiveFailureReachesCallers | ipstack/tcp_recv.go:131-137 | a failure wakes readers, leaves them what is buffered and is then reported |
| StreamTheorems.SuccessMeansDelivered | ipstack/tcp_send.go:113-125 | a Write or Close that succeeds leaves every byte written, and after Close the end, with the receiver |
| StreamTheorems.FailureCountsAcknowledged | ipstack/tcp_send.go:119-123 | a Write stopped by a failure reports exactly how many of its bytes were acknowledged, and those have reached the receiver |
| StreamTheorems.CallGoesThrough | ipstack/tcp_send.go:93-107 | a call goes through exactly when the stream is open, no failure is recorded and everything written is acknowledged; it is refused as closed first, then with the failure |
| StreamTheorems.NoPanicWithoutExpiry | ipstack/tcp_send.go:95-107 | without an expired write deadline nothing has panicked and the next Write or Close will not |
| StreamTheorems.PanicExactlyAfterExpiry | ipstack/tcp_send.go:214-227 | the next call panics if and only if an expired Write left bytes unacknowledged and no failure is recorded |
| StreamTheorems.ExpiredWriteThenPanic | ipstack/tcp_send.go:113-117 | a run of three steps in which it does |
| Checksum.NoOverflow | ipstack/checksum.go:13-22 | up to 131074 bytes the 32-bit sum does not overflow, and the checksum is the complement of the one's complement sum |
| Checksum.CorrectWhen | ipstack/checksum.go:13-28 | for all data the checksum is right if and only if nothing was carried out of the 32-bit sum, or a multiple of 65535 was and the sum left is not zero |
| Checksum.CorrectWhenNoOverflow | ipstack/checksum.go:13-18 | while the sum is below 65535 * 2^32, that is if and only if it did not overflow |
| Checksum.SomeWrongBeyond | ipstack/checksum.go:13-18 | for every length above 131074 some data of that length has a wrong checksum |
| Checksum.FoldKeepsOnesSum | ipstack/checksum.go:24-26 | folding the carries shrinks the sum and keeps its one's complement value |
| Checksum.FoldCarries | ipstack/checksum.go:24-28 | the fold loop ends with the representative of the sum, zero only for a zero sum and else in 1..65535 |
| Checksum.InternetChecksum | ipstack/checksum.go:9-29 | computes that checksum, for odd lengths too |
| Checksum.ChecksumVerifies | ipstack/checksum.go:3-8 | data whose checksum field, at an even offset, holds the checksum of the data with that field zero sums to zero; so does 0xffff in place of a zero checksum |
| IPv4.SetFragmentInfo | ipstack/ip.go:174-185 | writes the two flags and the 13-bit offset and clears the reserved bit |
| IPv4.SetTotalLength | ipstack/ip.go:189-193 | writes the length modulo 2^16 |
| IPv4.SetChecksum | ipstack/ip.go:136-142 | writes the header checksum computed over a zeroed field |
| IPv4.SetAddress | ipstack/ip.go:82-101 | writes a four-byte address, and nothing for an address that has no four-byte form |
| IPv4.ChecksumSum | ipstack/ip.go:128-142 | after SetChecksum the header sums to zero |
| IPv4.FinishedFields | ipstack/ip_frag.go:107-109 | the three setters leave a valid packet with a verifying header whose fields read back as set, and touch no other byte |
| IPv4.NewIPv4Packet | ipstack/ip.go:16-30 | builds, in place, the header with its checksum and then the payload |
| IPv4.FreshPacketFields | ipstack/ip.go:16-30 | a new packet that fits is valid, its header sums to zero, and every getter returns what was given |
| IPv4.FreshPacketFits | ipstack/ip.go:36-49 | a new packet is valid if and only if it is shorter than 65536 bytes |
| Fragmentation.Fragments | ipstack/ip_frag.go:80-114 | a packet shorter than the mtu goes as it is, one that must not or cannot be split goes nowhere, any other is covered in order by exact pieces, each but the last as large as the mtu allows |
| Fragmentation.SplitPayload | ipstack/ip_frag.go:102-113 | the loop covers the payload without gap or overlap |
| Fragmentation.MakePiece | ipstack/ip_frag.go:105-109 | each fragment is, to the byte, the piece of the packet at its offset |
| Fragmentation.PieceIsTile | ipstack/ip_frag.go:105-109 | a piece is a valid, verifying packet under the original's header that says where its bytes belong and whether more follow |
| Fragmentation.TileFields | ipstack/ip_frag.go:102-113 | offsets are where the payload before them ends, all but the last are multiples of eight long and say more follow, and the header fields are the original's |
| Fragmentation.FragmentsFit | ipstack/ip_frag.go:95-109 | fragments are at most mtu long, their header checksums verify and they may be fragmented again |
| Fragmentation.FragmentsAreLarge | ipstack/ip_frag.go:95-113 | no fragment but the last has room for eight bytes more under the mtu, and their number is the payload's length over the room for blocks of eight, rounded up |
| Fragmentation.ReassemblyRestores | ipstack/ip_frag.go:213-222 | reassembling the fragments of a packet gives that packet with fragment fields cleared and length and checksum written anew |
| Fragmentation.CanonicalIsOriginal | ipstack/ip_frag.go:218-220 | that is the packet itself if and only if its reserved bit is clear and its checksum is what SetChecksum writes |
| Reassembly.InsertAt | ipstack/ip_frag.go:173-188 | the slot the binary search finds is the insertion point |
| Reassembly.InsertElements | ipstack/ip_frag.go:186-188 | insertion loses and invents nothing |
| Reassembly.InsertKeepsSorted | ipstack/ip_frag.go:171-189 | offsets stay sorted for every arrival order |
| Reassembly.DuplicateIsInserted | ipstack/ip_frag.go:182-185 | a fragment received twice is kept twice |
| Reassembly.DuplicateStays | ipstack/ip_frag.go:186-188 | and stays, whatever arrives later |
| Reassembly.DuplicateNeverReady | ipstack/ip_frag.go:192-208 | and the packet is never ready |
| Reassembly.BlockedStep | ipstack/ip_frag.go:127-147 | at any time before it expires a reconstruction with a duplicate survives any arrival with its duplicate, and a fragment of its own gets nothing |
| Reassembly.BlockedDeliversNothing | ipstack/ip_frag.go:127-147 | so after any arrivals before its drop time no fragment of its own delivers a packet |
| Reassembly.LiveKeepsValid | ipstack/ip_frag.go:149-159 | cleaning up keeps the table valid |
| Reassembly.AddPacketKeepsValid | ipstack/ip_frag.go:127-147 | the table always has at most one reconstruction per identification and source, each sorted and holding only fragments of its own |
| Defragmenter.Ipv4Reconstruction.constructor | ipstack/ip_frag.go:140-145 | a reconstruction starts with the fragment that opened it |
| Defragmenter.Ipv4Reconstruction.AddFragment | ipstack/ip_frag.go:171-189 | binary search and insertion put the fragment behind all with offsets not larger; the test for duplicates is dead |
| Defragmenter.Ipv4Reconstruction.Ready | ipstack/ip_frag.go:192-208 | ready exactly when the last fragment says no more follow and every fragment starts where those before it end |
| Defragmenter.Ipv4Reconstruction.Reassemble | ipstack/ip_frag.go:213-222 | the first header, all payloads in order, and the setters |
| Defragmenter.Ipv4Defragmenter.constructor | ipstack/ip_frag.go:29-29 | an empty table with the given timeout |
| Defragmenter.Ipv4Defragmenter.DropOld | ipstack/ip_frag.go:149-159 | deleting while iterating leaves exactly the unexpired reconstructions in their order |
| Defragmenter.Ipv4Defragmenter.Lookup | ipstack/ip_frag.go:129-131 | finds the first reconstruction of the fragment's identification and source |
| Defragmenter.Ipv4Defragmenter.Accept | ipstack/ip_frag.go:132-137 | inserts the fragment and, when that completes the packet, removes the reconstruction and returns the packet |
| Defragmenter.Ipv4Defragmenter.AddPacket | ipstack/ip_frag.go:127-147 | objects and slice follow the table step, and stay valid |
| DefragTheorem.PickInsert | ipstack/ip_frag.go:171-189 | inserting a fragment not yet there gives the larger subset of the packet's fragments, whatever arrived before |
| DefragTheorem.ReadyExactlyWhenWhole | ipstack/ip_frag.go:192-208 | any duplicate-free subset of a packet's fragments is ready if and only if it is all of them |
| DefragTheorem.ReadyExactlyWhenEachOnce | ipstack/ip_frag.go:171-208 | after any arrivals of a packet's fragments, in any order and with any repetition, it is ready if and only if each fragment has arrived exactly once |
| DefragTheorem.FirstFragmentTwice | ipstack/ip_frag.go:182-185 | of a packet in two fragments, the first arriving twice and then the second: all is there and it is not ready |
| DefragTheorem.FragmentsMakeFlow | ipstack/ip_frag.go:80-114 | what Fragments yields for an unfragmented packet is what the theorems below accept, and it yields nothing exactly when the packet must not be split or the mtu has no room for eight bytes |
| DefragRuns.IncomingStep | ipstack/ip_frag.go:30-37 | one arrival, on any table: the table goes on holding exactly the packets being collected, and returns what the machine of the packet delivers |
| DefragRuns.TableFollows | ipstack/ip_frag.go:127-159 | after every run, repetitions and expiry included, the table holds exactly the packets being collected, each with all fragments arrived since its collecting began and its drop time |
| DefragRuns.DeliversExactlyWhenEachOnce | ipstack/ip_frag.go:127-147 | in every run an arrival delivers the restored packet if and only if the packet was not split or, with this arrival, each fragment has arrived exactly once since its collecting began |
| DefragRuns.CollectingSince | ipstack/ip_frag.go:140-159 | collecting began with a fragment of the packet; held are all its fragments since, and no fragment of any packet came at its drop time or later |
| DefragDelivery.OrderlyTallies | ipstack/ip_frag.go:127-159 | when no fragment is repeated, no unfinished packet expires and no two unfinished packets share a key, the packets being collected are exactly the unfinished ones and nothing is mixed |
| DefragDelivery.TableTracks | ipstack/ip_frag.go:127-147 | after any such run the table holds a reconstruction for each unfinished packet, with what has arrived of it, and nothing else |
| DefragDelivery.EveryStepDelivers | ipstack/ip_frag.go:127-147 | in any such run each arrival returns the restored packet if it completes it, and nothing otherwise |
| DefragDelivery.CompletedOnce | ipstack/ip_frag.go:127-147 | a packet is completed by its last-arriving fragment only |
| DefragDelivery.AllDeliveredLeavesNothing | ipstack/ip_frag.go:127-147 | once every fragment has arrived the table is empty |
| DefragTheorem.RestoredIsOriginal | ipstack/ip_frag.go:213-222 | what is delivered is the original if and only if it was not split or was in canonical form |
| DomainNames.Validate | dnsproto/domain_name.go:38-55 | accepts exactly the names with labels of 1 to 63 allowed characters and an encoding of at most 255 bytes |
| DomainNames.PatternLanguage | dnsproto/domain_name.go:11-11 | a label matches exactly when its first character is a letter, its last a letter or digit, and those between letters, digits or hyphens |
| DomainNames.ParseOfJoin | dnsproto/domain_name.go:19-34 | a printed name parses back, with or without a trailing dot, if and only if it is valid and not empty |
| DomainNames.JoinOfParse | dnsproto/domain_name.go:19-34 | every successful parse prints back to its input minus one trailing dot |
| Wire.ReadLabels | dnsproto/transcoding.go:136-171 | reading terminates on every byte string, moves forward, and yields only valid names |
| Wire.ReadOfEncodedName | dnsproto/transcoding.go:65-76 | an encoded name reads back wherever it stands |
| Wire.ValidNameFits | dnsproto/domain_name.go:38-55 | a name is valid exactly when its labels are and its encoding has at most 255 bytes |
| Wire.ReadThroughPointer | dnsproto/transcoding.go:147-160 | labels followed by a pointer to where the bytes before it read as a name, itself compressed or not, read as the labels and then that name if the whole is valid, and are an invalid name otherwise |
| Wire.ReadRefuses | dnsproto/transcoding.go:136-171 | the end of the buffer, a length with one of its two high bits set, a pointer that does not point back and a label that runs out are refused, each with its own error |
| Wire.ReadOfCompressedName | dnsproto/transcoding.go:147-160 | in particular with a pointer to a name written earlier, fully preceding it |
| Wire.ReadIsLocal | dnsproto/transcoding.go:152-153 | a name that reads in a prefix of the buffer reads the same in the whole |
| Wire.DecodeOfEncodedFields | dnsproto/transcoding.go:28-42 | fields written one after the other read back as they were |
| Wire.EncodesWhenNamesValid | dnsproto/transcoding.go:28-42 | writing fails if and only if some name is invalid |
| Transcoding.MessageWriter.WriteFields | dnsproto/transcoding.go:28-42 | appends the encodings of the fields in order; at an invalid name it stops, with the fields before it written |
| Transcoding.MessageWriter.WriteWithLength | dnsproto/transcoding.go:46-58 | back-patches the length, modulo 2^16, of what was written after it; at an invalid name the length stays zero |
| Transcoding.MessageWriter.WriteDomain | dnsproto/transcoding.go:65-76 | appends the encoding of a valid name and leaves the buffer alone for any other |
| Transcoding.MessageReader.ReadFields | dnsproto/transcoding.go:90-106 | the cursor yields the decoded fields and stops behind them |
| Transcoding.MessageReader.ReadByte | dnsproto/transcoding.go:108-114 | one byte, or underflow at the end |
| Transcoding.MessageReader.ReadN | dnsproto/transcoding.go:116-122 | n bytes if they are there, at the very end not even none; a short read moves to the end |
| Transcoding.MessageReader.Backtrack | dnsproto/transcoding.go:128-130 | moves the cursor back |
| Transcoding.MessageReader.ReadDomain | dnsproto/transcoding.go:136-171 | the loop with its recursive reader over a shorter prefix yields the name, or the error, of the decoding function |
| Messages.FlagsReadBack | dnsproto/header.go:30-69 | all flags, opcode and response code survive the sixteen flag bits |
| Messages.CodesAreMasked | dnsproto/header.go:55-69 | of opcode and response code only the low four bits are written |
| Messages.DecodeOfEncodedHeader | dnsproto/header.go:22-71 | an encoded header with four-bit codes reads back wherever it stands |
| Messages.DecodeOfEncodedQuestion | dnsproto/question.go:10-17 | an encoded question reads back |
| Messages.DecodeBody | dnsproto/record.go:122-149 | a decoded record has the variant its type calls for, with valid names; which name, NameRecordDecodes and SoaRecordDecodes say |
| Messages.DecodeRecord | dnsproto/record.go:109-149 | a decoded record is well formed, and one without data does not end the message |
| Messages.BodyEncodes | dnsproto/record.go:156-164 | the data of a well-formed record always encodes and fits its length field |
| DnsTheorems.DecodeOfEncodedBody | dnsproto/record.go:122-164 | the data of every variant reads back as that variant |
| DnsTheorems.DecodeOfEncodedRecord | dnsproto/record.go:109-165 | an encoded record reads back in normal form wherever it stands, unless its data is empty and the buffer ends there |
| DnsRecords.HeaderDecodes | dnsproto/header.go:22-48 | a header decodes exactly when twelve bytes are there, with every flag from its bit |
| DnsRecords.QuestionDecodes | dnsproto/question.go:10-13 | a question is a name, possibly compressed, and two words behind it |
| DnsRecords.NameRecordDecodes | dnsproto/record.go:128-138 | an NS, CNAME or PTR record decodes, to the name read at its data through the whole message, if and only if that name ends where the data ends; otherwise it is an invalid record |
| DnsRecords.SoaRecordDecodes | dnsproto/record.go:139-145 | an SOA record decodes likewise if and only if its two names and five numbers end where the data ends |
| DnsRecords.OtherRecordDecodes | dnsproto/record.go:122-149 | any other record keeps its data, an address only four bytes of it |
| DnsRecords.ShortRecord | dnsproto/record.go:109-121 | an error in the owner's name is the record's, and a head or data that is not there underflows |
| DnsRecords.CompressedRecordDecodes | dnsproto/transcoding.go:147-160 | a record whose data is labels and a pointer to a name written earlier carries the joined name |
| DnsRecords.OneAnswerDecodes | dnsproto/message.go:31-73 | a message whose one answer takes up its rest decodes to that answer |
| DnsRecords.AliasAnswerDecodes | dnsproto/message.go:31-73 | the 27 bytes of an answer with a pointer in its data decode to it |
| Batches.SectionsAreChunks | dnsproto/message.go:53-68 | decoding section by section is decoding all records and dealing them out by the counts, also when an error stops it |
| Batches.ItemsReadBack | dnsproto/message.go:42-68 | a list of encoded items reads back when its items do |
| MessageTheorems.ExactCountsAreCounted | dnsproto/message.go:101-106 | exact counts are consistent |
| MessageTheorems.FilledIsCounted | dnsproto/message.go:101-106 | AutoFill makes a message's counts consistent if and only if no list has 65536 elements or more |
| MessageTheorems.DecodeOfEncodedMessage | dnsproto/message.go:31-96 | every well-formed message encodes, and decodes to its normal form if and only if its last record has data; otherwise, unless truncated, decoding reports underflow |
| MessageTheorems.EmptyRecordDoesNotDecode | dnsproto/transcoding.go:116-122 | a message whose only record has no data encodes and does not decode, for every header and name |
| MessageTheorems.MessageOutcome | dnsproto/message.go:31-73 | for every input with a header: the first error of its questions and records, but for a truncated message that runs out of bytes; excess data when bytes are left; otherwise all that was read |
| MessageTheorems.MessageEncodesWhenNamesValid | dnsproto/message.go:76-96 | any message encodes if and only if every name in it is valid |
| MessageTheorems.DecodedMessageIsWellFormed | dnsproto/message.go:31-73 | whatever decodes is well formed, and with the truncated flag clear its last record has data |
| MessageTheorems.DecodedMessageReencodes | dnsproto/message.go:31-96 | whatever decodes, compressed names included, encodes again; with the truncated flag clear that decodes to the same message but for the raw data of name-carrying records |
| MessageTheorems.NormalMessageEncodesTheSame | dnsproto/message.go:76-96 | encoding what an encoded message decodes to gives the same bytes |
| DnsCodec.EncodeHeader | dnsproto/header.go:50-71 | appends the encoded header |
| DnsCodec.DecodeHeader | dnsproto/header.go:22-48 | reads the header the decoding function describes |
| DnsCodec.EncodeQuestion | dnsproto/question.go:15-17 | appends the encoded question or reports its invalid name |
| DnsCodec.DecodeQuestion | dnsproto/question.go:10-13 | reads a question |
| DnsCodec.EncodeRecord | dnsproto/record.go:151-165 | appends the encoded record, with the length of its data before the data |
| DnsCodec.DecodeRecord | dnsproto/record.go:109-149 | computes the decoding function, going back over the data for variants that carry names |
| DnsCodec.ReadAgain | dnsproto/record.go:128-145 | the fields read from the raw data must take up all of it |
| DnsCodec.DnsMessage.AutoFill | dnsproto/message.go:101-106 | sets the four counts and nothing else |
| DnsCodec.DnsMessage.Encode | dnsproto/message.go:76-96 | returns the encoding of the message's value |
| DnsCodec.DecodeMessage | dnsproto/message.go:31-73 | returns a new message holding the decoded value, or its error |
| Transport.TransportVerifies | ipstack/tcp.go:270-281 | a checksum over pseudo-header and payload computed with a zeroed field verifies once in the field, odd lengths included |
| Transport.TransportChecksumSet | ipstack/tcp.go:287-290 | on every packet within the overflow bound SetChecksum makes the transport checksum verify, keeps the header and its checksum, and changes no other payload byte |
| Transport.TransportCovers | ipstack/tcp.go:270-281 | the transport sum covers both addresses, the protocol number, the length of the payload and the payload |
| Transport.TransportChecksum | ipstack/tcp.go:270-281 | computes the sum TransportCovers speaks of |
| Tcp4.FlagReadsBack | ipstack/tcp.go:100-122 | setting a flag sets that flag and no other flag or field |
| Tcp4.FlagsReadBack | ipstack/tcp.go:208-210 | after setting a list of flags, exactly those and the earlier ones are set |
| Tcp4.SetFlag | ipstack/tcp.go:108-122 | the in-place form of setting one flag |
| Tcp4.SetDataOffset | ipstack/tcp.go:95-98 | writes the upper half of its byte and keeps the lower |
| Tcp4.SetChecksum | ipstack/tcp.go:287-290 | writes the checksum computed over a zeroed field |
| Tcp4.FillHeader | ipstack/tcp.go:200-210 | the header written in place holds the given ports, numbers, window and exactly the given flags |
| Tcp4.NewTCP4Packet | ipstack/tcp.go:198-214 | a packet that fits is valid, both checksums verify, and every getter returns what was given |
| Tcp4.AssembledIsMadeFrom | ipstack/tcp.go:198-214 | the same about the bytes themselves, for every address, number, flag set and payload |
| Tcp4.AssembledFits | ipstack/tcp.go:217-227 | a new packet is valid for IPv4 if and only if it is shorter than 65536 bytes |
| Udp4.SetField | ipstack/udp.go:94-98 | writes one header word and nothing else |
| Udp4.SetChecksum | ipstack/udp.go:188-195 | writes the checksum computed over a zeroed field, 0xffff for zero |
| Udp4.NewUDP4Packet | ipstack/udp.go:104-114 | a packet that fits is valid, both checksums verify, its checksum is in use, and every getter returns what was given |
| Udp4.AssembledIsMadeFrom | ipstack/udp.go:104-114 | the same about the bytes themselves |
| Udp4.AssembledFits | ipstack/udp.go:117-127 | a new packet is valid for IPv4 if and only if it is shorter than 65536 bytes |
| SegmentPackets.SetFlagRemakes | ipstack/net_tcp.go:242-245 | SetFlag and SetChecksum on a made packet give the packet made with that flag too: checksums verify and nothing else changes |
| SegmentPackets.SetPacketFlag | ipstack/net_tcp.go:242-245 | the in-place form of that |
| SegmentPackets.EverySegmentFits | ipstack/tcp_send.go:167-185 | in every reachable state every segment emitted fits a packet, when the segment size is at most 65495 |
| SegmentPackets.SendSegment | ipstack/net_tcp.go:214-250 | a segment that fits a packet is read back by the peer as it was, with acknowledgement and window, and both checksums verify |
| Layouts.FreshPacketLayout | ipstack/ip.go:16-30 | every byte of a new IPv4 packet but its checksum, by offset |
| Layouts.FragmentWord | ipstack/ip.go:160-171 | the getters read don't fragment, more fragments and thirteen bits of offset from the fragment word |
| Layouts.FragmentWordSet | ipstack/ip.go:174-185 | and the setter writes that word |
| Layouts.FlagLayout | ipstack/tcp.go:100-106 | the bit of each TCP flag |
| Layouts.SegmentLayout | ipstack/tcp.go:198-214 | every field of a new TCP packet by offset, its flags by bit |
| Layouts.DatagramLayout | ipstack/udp.go:104-114 | every field of a new UDP packet by offset |
| Layouts.ChecksumExample | ipstack/checksum.go:9-29 | the worked example of section 3 of RFC 1071 |
| RefCount.StepKeepsInvariant | tunnet/utun_posix.go:37-56 | the count stays the number of threads inside, and the descriptor is closed exactly when closing has begun and nobody is inside |
| RefCount.RunKeepsInvariant | tunnet/utun_posix.go:27-56 | in every run of any number of threads |
| RefCount.ClosedOnceByTheLast | tunnet/utun_posix.go:45-53 | the descriptor is closed at most once, by the last thread to leave after closing began; nothing touches it afterwards |
| RefCount.ClosedWhenAllAreOut | tunnet/utun_posix.go:27-53 | once closing has begun and every thread is out, the descriptor is closed |
| RefCount.FdTunnelBase.Enter | tunnet/utun_posix.go:38-44 | counts a thread in unless the tunnel is closed |
| RefCount.FdTunnelBase.MarkClosed | tunnet/utun_posix.go:30-32 | marks the tunnel closed |
| RefCount.FdTunnelBase.Leave | tunnet/utun_posix.go:46-53 | counts a thread out and closes the descriptor when it is the last of a closed tunnel |

## Left out

- Goroutines, channels, mutexes and timers: lock-protected bodies are atomic steps, and the retransmission timer is any later sending of a segment once handed to it, which allows more than the program does.
- Liveness: a bare FIN is not acknowledged by the loop and acknowledgements are sent on a best-effort basis, so nothing is claimed about progress.
- Deadlines: only the expiry of a write deadline is a step; read deadlines and the check before a Write do not change state.
- Connection.WriteKeepsCarries: a single Write is shorter than 2^32 bytes, because from that length on Remaining truncates, which FullAckDropsWhatItAcknowledges states exactly.
- Aliasing of the caller's slice: the write buffer keeps the slice given to Write; the model takes its value, so a caller that changes it after an expired or failed Write is not covered.
- Go's int: positions, the FIN index and lengths are unbounded; a FIN index that runs down past the smallest int is not modelled.
- The server handshake: it only fixes the initial sequence numbers, which are arbitrary here.
- The end of the connection loop and the closing of the stream, and whether a step is possible after it: the runs here may go on longer than the program's.
- Fragments of two packets with the same source and identification mixed in one reconstruction: AddPacket is proved for them, DefragRuns says what happens while they are not mixed.
- Fragments that were fragmented again on the way, and overlapping fragments: AddPacket is proved for them, the delivery theorems are not about them.
- Error texts and kinds: errors are a small enumeration, and the context added to them is dropped.
- Transcoding.MessageReader.ReadFields: does not say where the cursor stands after an error, because every caller gives up then.
- TcpAssembler.TcpAssembler.AddSegment: segments of at most 2^32 bytes, because a longer one could not come in a packet.
- The label pattern is a predicate on characters, on labels as bytes.
- TCP options, the multiplexer, pipes and filters, the port allocator, ICMP, tunnel devices, routes and human-readable strings: foreign calls, plumbing, or easy members.
- RefCount.FdTunnelBase.Leave: system calls are counted, not performed, and their errors are not modelled.
