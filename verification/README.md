# Firedancer core models in Dafny

This project models four pieces of the Firedancer validator as pure Dafny functions and proves properties about them.

- **TPU reassembly slot pool** (`fd_tpu_reasm.c`): `reasm_queue.dfy`, `reasm.dfy`, `reasm_props.dfy`.
  - The pool is a fixed arena of `depth + burst` slots. Each slot is FREE, BUSY or PUB.
  - The `pub_slots` map says which slot owns each mcache line.
  - An index-linked FREE/BUSY queue orders the slots for reuse.
  - Modelled operations: footprint and layout, `new`, `reset`, `join`/`leave`/`delete`, `prepare`, `append`, `publish` with its corruption self-heal, `cancel`, and the order of writes to an mcache line.
  - `Valid(r, q)` is the pool invariant, where `q` is the queue from head to tail. It says:
    - the queue links are consistent;
    - exactly the non-PUB slots are queued;
    - the map names exactly the PUB slots, one line each;
    - BUSY payloads fit in `FD_TXN_MTU`.
  - Every operation is proved to preserve `Valid`.
- **TLS 1.3 handshake decoders** (`fd_tls_proto.c`): `tls_proto.dfy`.
  - The 4-byte handshake header of section 4 of RFC 8446, decoded and encoded.
  - ClientHello (section 4.1.2 of RFC 8446) and its extensions:
    - supported_versions (section 4.2.1);
    - signature_algorithms (section 4.2.3);
    - supported_groups (section 4.2.7);
    - key_share (section 4.2.8);
    - server_name (section 3 of RFC 6066).
  - Decoders return `Ok(value, bytes consumed)` or `Fail(alert)`. A third outcome, `Overread`, marks the point where the C code would read past the end of the caller's buffer.
- **CPI instruction preparation** (`fd_vm_syscall_cpi.c`): `cpi.dfy`.
  - Account de-duplication with privilege unification, privilege-escalation checks and the copy-out.
  - The callee program checks, `check_instruction`, `get_cpi_max_account_infos`, `is_signer`, `is_precompile` and `check_authorized_program`.
  - Each is stated against a reference definition: the first reference to a transaction account, and the OR of the flags over all of its references.
- **VM syscall guard macros** (`fd_vm_syscall_macros.h`): `syscall_guards.dfy`.
  - Compute-unit charging and the memory-op cost.
  - The error order of checked host-address translation.
  - Slice translation, the range-overlap test and `FD_VM_TRANSLATE_MUT`.

`bytes.dfy` holds the machine-word vocabulary: bytes, big-endian reads, and `ulong` wrap-around, saturating and sequence arithmetic.

Integers are unbounded in Dafny. Where the C code truncates or wraps, the model says so explicitly:
- `(uint)` and `(ushort)` casts in the mcache writes;
- `ulong` subtraction in the bounds checks;
- `fd_seq_dec`;
- the saturating adds and multiplies.

Two details of the code's behaviour that the model keeps:
- **`reset` and the queue ends.** `reset` rewrites slot states and links but keeps `head` and `tail` as they were (see Findings).
- **When a slot's size goes back to 0.** `sz` is zeroed by `prepare`, not by `cancel` or by the victim-freeing step of `publish`.

## Model

| member | source | states |
|---|---|---|
| TpuReasm.Footprint | src/disco/quic/fd_tpu_reasm.c:8-20 | the footprint is 0 exactly when depth is not a power of two no greater than 0x7fffffff or burst is outside 2..0x7fffffff; otherwise it is the aligned size of the header, map, slot and chunk regions |
| TpuReasm.LayoutOf | src/disco/quic/fd_tpu_reasm.c:38-43 | the header, the 4-byte-per-line map, the slot_cnt slot records and the slot_cnt chunks follow each other in that order without overlapping, each region aligned to its own requirement and the total to the header's; each offset (and the total) is the first aligned position after the previous region, less than one alignment unit past its end |
| TpuReasm.LayoutOfUnique | src/disco/quic/fd_tpu_reasm.c:38-43 | those order, alignment and minimality bounds determine the layout: any layout meeting them is the one the scratch allocator carves out, so the footprint value is fixed |
| TpuReasm.Build | src/disco/quic/fd_tpu_reasm.c:33-63 | the pool built in a region has the initial distribution, slot_cnt = depth+burst, head = slot_cnt-1, tail = depth, the given orig and a zero magic |
| TpuReasm.NewAsWritten | src/disco/quic/fd_tpu_reasm.c:22-36 | as written, `new` succeeds exactly for a non-null aligned region, valid depth and burst, and orig no greater than FD_FRAG_META_ORIG_MAX |
| TpuReasm.New | src/disco/quic/fd_tpu_reasm.c:22-70 | `new` fails exactly on a null or misaligned region, invalid depth/burst or an orig that does not fit the ctl field; on success the pool has the initial distribution, the magic, slot_cnt = depth+burst, head = slot_cnt-1 and tail = depth |
| TpuReasm.NewWith | src/disco/quic/fd_tpu_reasm.c:22-70 | `new` with either origin bound succeeds exactly on a non-null aligned region with valid depth/burst and an orig below FD_FRAG_META_ORIG_MAX (or equal to it under the inclusive bound the code uses), and then builds the initial pool with the magic, the layout and the caller's payload buffers |
| TpuReasm.ResetAsWritten | src/disco/quic/fd_tpu_reasm.c:72-94 | reset puts slots 0..depth-1 in PUB owning line j, links slots depth.. as FREE with prev = j+1 and next = j-1 (none at the ends), keeps payloads, and leaves head and tail untouched |
| TpuReasm.Reset | src/disco/quic/fd_tpu_reasm.c:72-94 | the corrected reset: the same distribution, with head = slot_cnt-1 and tail = depth restored |
| TpuReasm.Join | src/disco/quic/fd_tpu_reasm.c:96-104 | join succeeds exactly when the magic matches, and returns the pool unchanged |
| TpuReasm.Leave | src/disco/quic/fd_tpu_reasm.c:106-109 | leave hands back the pool unchanged, so it stays joinable exactly when it was |
| TpuReasm.Delete | src/disco/quic/fd_tpu_reasm.c:111-117 | delete of null is null; otherwise it clears the magic and changes nothing else |
| TpuReasm.Prepare | src/disco/quic/fd_tpu_reasm.c:134-142 | prepare takes the tail slot, makes it BUSY with size 0 and the 32-bit truncated tsorig, puts it at the head, and leaves every other slot body as it was |
| TpuReasm.Cancel | src/disco/quic/fd_tpu_reasm.c:267-276 | cancel of a FREE slot changes nothing; otherwise the slot becomes FREE at the queue tail with conn_id and stream_id cleared and everything else kept |
| TpuReasm.Append | src/disco/quic/fd_tpu_reasm.c:144-183 | append on a non-BUSY slot is ERR_STATE with no change; an offset past the size cancels with ERR_SKIP; a fragment already covered is SUCCESS with no change; otherwise the trimmed fragment is written at the old size, and if it passes FD_TXN_MTU the slot is cancelled with ERR_SZ instead |
| TpuReasm.MarkPublished | src/disco/quic/fd_tpu_reasm.c:222-225 | marking publishes the slot (state PUB), points the map line at it and changes no other slot state |
| TpuReasm.FreeVictim | src/disco/quic/fd_tpu_reasm.c:227-238 | the victim becomes FREE at the queue tail; no other slot state and no map entry changes |
| TpuReasm.Heal | src/disco/quic/fd_tpu_reasm.c:214-236 | the self-heal leaves the initial distribution and keeps every slot payload |
| TpuReasm.PublishWith | src/disco/quic/fd_tpu_reasm.c:185-265 | publish of a non-BUSY slot is ERR_STATE with no change; publish of a BUSY slot succeeds exactly when the line's owner is in range and is PUB or the slot itself; on success the slot becomes the line's owner, the old owner is freed and the line receives exactly the scalar publish writes; otherwise the pool is reset and the mcache is untouched |
| TpuReasm.PublishAsWritten | src/disco/quic/fd_tpu_reasm.c:214-219 | as written, a corrupted map entry resets the pool with its old head and tail kept |
| TpuReasm.Publish | src/disco/quic/fd_tpu_reasm.c:185-265 | publish with the corrected reset: every failure on a BUSY slot yields the initial distribution with head = slot_cnt-1 and tail = depth, and an unchanged mcache; on success the line receives exactly the seven stores of lines 250-261 (seq-1 first, then chunk, sz, ctl with the pool origin and som/eom set, tsorig, tspub, seq last) |
| TpuReasmProps.PublishedLine | src/disco/quic/fd_tpu_reasm.c:242-261 | on a valid pool, after publish the line holds seq, the 32-bit chunk, 16-bit sz and ctl (origin, som, eom) and the 32-bit timestamps, and every other mcache line is unchanged |
| TpuReasm.LineIdx | src/disco/quic/fd_tpu_reasm.c:211 | the map line of a sequence number is below depth |
| ReasmQueue.PopTailLinks | src/disco/quic/fd_tpu_reasm.c:137 | popping the tail of a well-linked queue returns its last slot and leaves a well-linked queue of the others |
| ReasmQueue.PushHeadLinks | src/disco/quic/fd_tpu_reasm.c:139 | pushing an unqueued slot at the head gives a well-linked queue with that slot first |
| ReasmQueue.PushTailLinks | src/disco/quic/fd_tpu_reasm.c:275 | pushing an unqueued slot at the tail gives a well-linked queue with that slot last |
| ReasmQueue.RemoveLinks | src/disco/quic/fd_tpu_reasm.c:271 | removing the k-th queued slot leaves a well-linked queue of the others in order |
| TpuReasmProps.PopcntOneIffPow2 | src/disco/quic/fd_tpu_reasm.c:13 | a population count of one is the same as being a power of two |
| TpuReasmProps.InitialValid | src/disco/quic/fd_tpu_reasm.c:84-93 | the initial distribution with head = slot_cnt-1 and tail = depth satisfies the pool invariant with the queue slot_cnt-1 down to depth |
| TpuReasmProps.ResetValid | src/disco/quic/fd_tpu_reasm.c:72-94 | the corrected reset always yields a valid pool |
| TpuReasmProps.NewValid | src/disco/quic/fd_tpu_reasm.c:22-70 | a pool made by `new` satisfies the pool invariant |
| TpuReasmProps.NewMarkerLast | src/disco/quic/fd_tpu_reasm.c:54-67 | the pool is not joinable until the magic is written as the final step of `new`; after it, join succeeds; after delete, it fails again |
| TpuReasmProps.JoinLeaveJoin | src/disco/quic/fd_tpu_reasm.c:96-109 | joining, leaving and joining again gives the same pool |
| TpuReasmProps.SlotCounts | src/disco/quic/fd_tpu_reasm.c:84-93 | in a valid pool exactly depth slots are PUB, exactly burst are queued, the two sets are disjoint and together are all slot_cnt slots |
| TpuReasmProps.PrepareValid | src/disco/quic/fd_tpu_reasm.c:134-142 | prepare on a valid pool takes the queue's last, non-PUB slot and keeps the invariant with that slot moved to the front |
| TpuReasmProps.CancelValid | src/disco/quic/fd_tpu_reasm.c:267-276 | cancel of a non-PUB slot keeps the invariant, with a BUSY slot moved to the back of the queue |
| TpuReasmProps.CancelIdempotent | src/disco/quic/fd_tpu_reasm.c:270-275 | cancelling twice is the same as cancelling once |
| TpuReasmProps.AppendValid | src/disco/quic/fd_tpu_reasm.c:151-176 | every outcome of append keeps the invariant: success or ERR_STATE with the same queue, ERR_SZ or ERR_SKIP with the BUSY slot moved to the back |
| TpuReasmProps.AppendSuccessValid | src/disco/quic/fd_tpu_reasm.c:172-182 | a successful append keeps the invariant with the queue unchanged |
| TpuReasmProps.PublishValid | src/disco/quic/fd_tpu_reasm.c:222-238 | on a valid pool, publish of a BUSY slot succeeds and keeps the invariant, with the slot leaving the queue and the old line owner joining its back |
| TpuReasmProps.PublishHeals | src/disco/quic/fd_tpu_reasm.c:214-236 | whenever publish reports corruption, the pool it leaves is valid |
| TpuReasmProps.AppendCoveredNoop | src/disco/quic/fd_tpu_reasm.c:163-166 | a fragment lying wholly inside the bytes already written changes nothing and succeeds |
| TpuReasmProps.AppendOverlapTrims | src/disco/quic/fd_tpu_reasm.c:163-170 | a fragment overlapping the written bytes behaves as its tail starting at the current size |
| TpuReasmProps.AppendStreamGathers | src/disco/quic/fd_tpu_reasm.c:172-182 | appending consecutive fragments one by one, within FD_TXN_MTU, leaves the concatenation at the slot's offset and succeeds |
| TpuReasmProps.PublishWritesOrdered | src/disco/quic/fd_tpu_reasm.c:250-261 | while the line's fields are being written, its sequence field holds seq-1 (never seq); after the last write it holds seq and the truncated chunk, sz, ctl, tsorig and tspub |
| TpuReasmProps.CtlCarriesOrigin | src/disco/quic/fd_tpu_reasm.c:242 | the published ctl carries orig, with som and eom set and err clear, for orig below FD_FRAG_META_ORIG_MAX |
| TpuReasm.Ctl | src/disco/quic/fd_tpu_reasm.c:242 | the ctl word keeps the origin above bit 3, readable back as ctl/8, and som, eom and err in bits 0, 1 and 2 |
| TpuReasm.PublishWrites | src/disco/quic/fd_tpu_reasm.c:250-261 | the scalar publish writes the line's seq field first (with seq-1) and last (with seq) and nowhere between; the five body stores between carry values truncated to 16 or 32 bits |
| TpuReasmProps.NewOriginPublished | src/disco/quic/fd_tpu_reasm.c:59 | the orig accepted by `new` is the one consumers read back from ctl |
| TpuReasmProps.OrigBoundCounterexample | src/disco/quic/fd_tpu_reasm.c:31 | as written, orig = FD_FRAG_META_ORIG_MAX is accepted and then reads back from ctl as 0; the corrected `new` refuses it |
| TpuReasmProps.ResetAsWrittenNeedsEnds | src/disco/quic/fd_tpu_reasm.c:72-94 | the as-written reset gives a valid pool only if head and tail already sat at slot_cnt-1 and depth |
| TpuReasmProps.ResetAsWrittenBreaksQueue | src/disco/quic/fd_tpu_reasm.c:214-219 | after one prepare, a corrupted map entry makes the as-written publish leave a pool no queue makes valid, while the corrected one leaves a valid pool |
| TpuReasmProps.ResetAsWrittenCounterexample | src/disco/quic/fd_tpu_reasm.c:214-219 | the same on a concrete pool of depth 1 and burst 2 |
| Bytes.SeqDec | src/disco/quic/fd_tpu_reasm.c:252 | the sequence number before x differs from x, and is x-1, or ULONG_MAX for 0 |
| TlsProto.DecodeRecordHdr | src/tango/tls/fd_tls_proto.c:4-19 | decoding the header fails with DECODE_ERROR exactly when fewer than 4 bytes are given; otherwise it consumes 4 bytes, type is byte 0 and the size is below 2^24 |
| TlsProto.EncodeRecordHdr | src/tango/tls/fd_tls_proto.c:21-35 | encoding fails with INTERNAL_ERROR exactly when fewer than 4 bytes are available; otherwise it writes 4 bytes starting with the type |
| TlsProto.RecordHdrRoundTrip | src/tango/tls/fd_tls_proto.c:9-34 | decoding an encoded header gives back its type and its size modulo 2^24, so a header whose size is below 2^24 comes back unchanged |
| TlsProto.RecordHdrReencode | src/tango/tls/fd_tls_proto.c:12-32 | encoding a decoded header reproduces the first 4 bytes of the wire |
| Bytes.LowBytes24 | src/tango/tls/fd_tls_proto.c:29-32 | the three `(uchar)` casts of sz>>16, sz>>8 and sz are the big-endian bytes of sz modulo 2^24 |
| TlsProto.ScanU16Even | src/tango/tls/fd_tls_proto.c:86-97 | scanning an even-length list of 16-bit values consumes it all and reports whether the target value is among them |
| TlsProto.ScanU16 | src/tango/tls/fd_tls_proto.c:86-97 | the 16-bit list loop fails only with DECODE_ERROR; a set flag stays set; a flag it sets is backed by a 16-bit value equal to the target inside the buffer; a non-empty scan ends at or past the list end |
| TlsProto.DecodeU16List | src/tango/tls/fd_tls_proto.c:288-300 | a length-prefixed list of 16-bit values decodes exactly when its prefix, alignment and length fit; the flag ends up set exactly when it was set or the value occurs in the list |
| TlsProto.DecodeSupportedVersions | src/tango/tls/fd_tls_proto.c:303-323 | supported_versions has a one-byte length that must be even and fit; tls13 is set exactly when it was or TLS 1.3 is listed |
| TlsProto.DecodeSupportedGroups | src/tango/tls/fd_tls_proto.c:281-301 | supported_groups has a two-byte length that must fit; x25519 is set exactly when it was or X25519 is listed |
| TlsProto.DecodeSignatureAlgorithms | src/tango/tls/fd_tls_proto.c:325-345 | signature_algorithms has a two-byte even length that must fit; ed25519 is set exactly when it was or Ed25519 is listed |
| TlsProto.DecodeKeyShareEntry | src/tango/tls/fd_tls_proto.c:347-382 | an entry decodes exactly when its 4-byte header and its data fit and an X25519 key is 32 bytes; it consumes 4 + kex_data_sz bytes and records an X25519 key with has_x25519 set, leaving other groups unrecorded |
| TlsProto.KeyShareEntryRoundTrip | src/tango/tls/fd_tls_proto.c:355-381 | decoding the bytes of an entry gives back its key (X25519) or nothing (other groups) and consumes the entry |
| TlsProto.DecodeKeyShareClient | src/tango/tls/fd_tls_proto.c:384-401 | a client key_share consumes exactly its two-byte length prefix and list, and fails only with DECODE_ERROR |
| TlsProto.ScanKeySharesEntries | src/tango/tls/fd_tls_proto.c:391-398 | scanning the bytes of a list of entries consumes them all; each X25519 entry overwrites the recorded key, so the last one wins |
| TlsProto.ScanKeyShares | src/tango/tls/fd_tls_proto.c:391-398 | the key_share list loop fails only with DECODE_ERROR, as each entry's decoder does, and never moves backwards or past the buffer |
| TlsProto.KeyShareClientRoundTrip | src/tango/tls/fd_tls_proto.c:384-401 | decoding an encoded client key_share list gives the key its entries determine and consumes the list exactly |
| TlsProto.ScanNames | src/tango/tls/fd_tls_proto.c:249-276 | a name whose declared length runs past the end of the list (lines 260-261) is DECODE_ERROR under either bounds check, and so is (corrected) a name header crossing the list end; with the corrected check the list never reads past the caller's buffer and a success ends exactly at the list end; every failure is DECODE_ERROR |
| TlsProto.DecodeServerNameWith | src/tango/tls/fd_tls_proto.c:240-279 | the server_name decoder behind both wrappers: a list prefix that is missing or longer than the buffer is DECODE_ERROR, and so is every other failure; under either name check a success consumes exactly the prefix and the declared list; with the corrected check it never over-reads |
| TlsProto.DecodeServerNameAsWritten | src/tango/tls/fd_tls_proto.c:240-279 | as written, a successful server_name consumes its two-byte length prefix and list; failures are DECODE_ERROR |
| TlsProto.DecodeServerName | src/tango/tls/fd_tls_proto.c:240-279 | the corrected server_name never over-reads, fails only with DECODE_ERROR and consumes exactly its prefix and list |
| TlsProto.NameStep | src/tango/tls/fd_tls_proto.c:250-275 | one server_name entry either moves strictly forward inside the list or ends the loop; a header cut short by the buffer or a name running past the list end ends it with DECODE_ERROR (and, corrected, so does a header crossing the list end); with the corrected bounds the loop's end never over-reads and a success ends exactly at the list end; a failure is DECODE_ERROR |
| TlsProto.ScanNamesEntries | src/tango/tls/fd_tls_proto.c:263-275 | scanning the bytes of a list of names keeps an existing host name, or else takes the first non-empty DNS name shorter than 254 bytes (an empty one leaves host_name_len at 0), and consumes the list |
| TlsProto.ServerNameRoundTrip | src/tango/tls/fd_tls_proto.c:240-279 | decoding an encoded server_name list records the first non-empty DNS name shorter than 254 bytes (unless a name was already recorded) and consumes exactly the list |
| TlsProto.ServerNameOverreadCounterexample | src/tango/tls/fd_tls_proto.c:259-268 | as written, a name header that crosses the list end makes the bounds check wrap and the copy read past the buffer; the corrected decoder reports DECODE_ERROR |
| TlsProto.DecodeExt | src/tango/tls/fd_tls_proto.c:139-161 | each of the five known types goes to its own decoder, whose alert, over-read or result (stored in that extension's ClientHello field, with the length it consumed) is passed on; an unknown type is skipped by reporting its declared size; random and the cipher-suite flag are never touched |
| TlsProto.ExtLoop | src/tango/tls/fd_tls_proto.c:125-170 | an extension header cut short by the buffer, or one whose declared data does not fit before the end of the extension block (lines 136-137), is DECODE_ERROR under either bounds check, and so is (corrected) a header crossing the block end; with the corrected check the loop never over-reads and a success ends exactly at the block end; random and the cipher flag are never touched |
| TlsProto.ExtLoopStep | src/tango/tls/fd_tls_proto.c:135-169 | for an extension whose header and data fit in the block, the as-written and corrected loops take the same step: a decoder's alert or over-read is passed on, a decoder that consumes anything but the declared size is DECODE_ERROR, one that consumes exactly that size hands its updated ClientHello to the next extension (or ends the loop at the block end), and an unknown extension is stepped over |
| TlsProto.ServerNameExtRoundTrip | src/tango/tls/fd_tls_proto.c:146-148 | a server_name extension holding an encoded name list records in the ClientHello the name the list yields and consumes exactly its size |
| TlsProto.KeyShareExtRoundTrip | src/tango/tls/fd_tls_proto.c:155-157 | a key_share extension holding an encoded share list records in the ClientHello the share the list leaves and consumes exactly its size |
| TlsProto.DecodeClientHelloWith | src/tango/tls/fd_tls_proto.c:55-175 | a decoded ClientHello has its fixed parts present, random = bytes 2..34 and the AES-128-GCM-SHA256 flag set exactly when it was or that suite is offered |
| TlsProto.DecodeClientHello | src/tango/tls/fd_tls_proto.c:55-175 | the corrected ClientHello decoder never over-reads and returns the number of bytes up to the end of the announced extension block |
| TlsProto.DecodeClientHelloAsWritten | src/tango/tls/fd_tls_proto.c:55-175 | as written, a ClientHello decodes only with a well-formed fixed prefix, keeps the client random and sets the AES-128-GCM flag exactly when it was set or that suite is listed; a short message is DECODE_ERROR; unlike the corrected decoder it may over-read (see Findings) |
| TlsProto.ClientHelloErrorOrder | src/tango/tls/fd_tls_proto.c:74-118 | the fixed parts are checked in order: too short is DECODE_ERROR, a non-empty session id PROTOCOL_VERSION, an odd or oversized cipher-suite list DECODE_ERROR, a missing compression/extension header DECODE_ERROR, a compression count other than 1 PROTOCOL_VERSION, an oversized extension block DECODE_ERROR |
| TlsProto.ExtHeaderCrossingCounterexample | src/tango/tls/fd_tls_proto.c:136 | as written, an extension header crossing the end of the extension block makes the bounds check wrap: a 45-byte ClientHello decodes as 1045 bytes; the corrected decoder refuses it |
| SyscallGuards.CuUpdate | src/flamenco/vm/syscall/fd_vm_syscall_macros.h:24-34 | charging fails exactly when the cost exceeds the remaining units, leaving 0; otherwise the units drop by exactly the cost, so cost == cu succeeds with 0 left |
| SyscallGuards.ChargeAdditive | src/flamenco/vm/syscall/fd_vm_syscall_macros.h:28-33 | charging a then b is the same as charging a+b at once |
| SyscallGuards.MemOpCost | src/flamenco/vm/syscall/fd_vm_syscall_macros.h:37-38 | the memory-op cost is at least the base cost of 10 and is sz/250 whenever that is larger |
| SyscallGuards.MemOpCostMonotone | src/flamenco/vm/syscall/fd_vm_syscall_macros.h:37-38 | a larger memory op never costs less |
| SyscallGuards.MemOpCostFlat | src/flamenco/vm/syscall/fd_vm_syscall_macros.h:37-38 | the cost is the base cost exactly for sizes below 2750 bytes |
| SyscallGuards.CuMemOpUpdate | src/flamenco/vm/syscall/fd_vm_syscall_macros.h:37-38 | a memory-op charge fails exactly when its cost exceeds the remaining units, and otherwise takes at least the base cost |
| SyscallGuards.HaddrTranslate | src/flamenco/vm/syscall/fd_vm_syscall_macros.h:90-109 | a checked translation succeeds exactly when sz ≤ LONG_MAX, the address maps to a single region and (with check_align) is aligned; every failure is SEGFAULT, and its cause is the first of length, mapping, alignment that fails |
| SyscallGuards.SliceTranslate | src/flamenco/vm/syscall/fd_vm_syscall_macros.h:227-237 | a slice longer than LONG_MAX is INVALID_LENGTH (exactly then); an empty slice is never translated; otherwise it is the checked translation |
| SyscallGuards.SliceNeverSegfaultsOnLength | src/flamenco/vm/syscall/fd_vm_syscall_macros.h:254-258 | a slice never reports its length as a segfault |
| SyscallGuards.EmptySliceIgnoresMap | src/flamenco/vm/syscall/fd_vm_syscall_macros.h:259-263 | an empty slice translates the same under any memory map, and always succeeds |
| SyscallGuards.OverlapIffIntersect | src/flamenco/vm/syscall/fd_vm_syscall_macros.h:267-273 | for non-empty ranges, the overlap test fires exactly when the half-open ranges share a byte |
| SyscallGuards.SharedByteOverlaps | src/flamenco/vm/syscall/fd_vm_syscall_macros.h:267-273 | ranges that share a byte are always reported as overlapping |
| SyscallGuards.OverlapSymmetric | src/flamenco/vm/syscall/fd_vm_syscall_macros.h:267-273 | for non-empty ranges the test does not depend on argument order |
| SyscallGuards.EmptyRangeCases | src/flamenco/vm/syscall/fd_vm_syscall_macros.h:268-269 | an empty range can still be reported as overlapping, and then the test depends on argument order |
| SyscallGuards.FirstClashNone | src/flamenco/vm/syscall/fd_vm_syscall_macros.h:295-298 | no earlier query clashes exactly when the new range overlaps none of the earlier ranges |
| SyscallGuards.CheckEarlier | src/flamenco/vm/syscall/fd_vm_syscall_macros.h:295-298 | the inner loop reports a clash exactly when some earlier range overlaps the new one |
| SyscallGuards.TranslateMutSpec | src/flamenco/vm/syscall/fd_vm_syscall_macros.h:286-300 | a successful TRANSLATE_MUT returns each query's translated address |
| SyscallGuards.RejectedPersists | src/flamenco/vm/syscall/fd_vm_syscall_macros.h:288-294 | once a prefix of queries is rejected, the whole batch is rejected with the same error |
| SyscallGuards.TranslateMut | src/flamenco/vm/syscall/fd_vm_syscall_macros.h:286-300 | the loop over queries computes the reference result |
| SyscallGuards.AllMappedEach | src/flamenco/vm/syscall/fd_vm_syscall_macros.h:288-294 | all queries map exactly when each one does |
| SyscallGuards.DisjointSnoc | src/flamenco/vm/syscall/fd_vm_syscall_macros.h:295-298 | a new range keeps the batch pairwise disjoint exactly when it overlaps no earlier one |
| SyscallGuards.TranslateMutSucceeds | src/flamenco/vm/syscall/fd_vm_syscall_macros.h:286-300 | TRANSLATE_MUT succeeds exactly when every query translates and the translated ranges are pairwise non-overlapping |
| SyscallGuards.TranslatedAddrs | src/flamenco/vm/syscall/fd_vm_syscall_macros.h:289-294 | the address returned for each query is that query's own translation |
| Bytes.SatSub | src/flamenco/vm/syscall/fd_vm_syscall_macros.h:268-269 | the saturating difference is a-b when a ≥ b and 0 otherwise |
| Cpi.IsSigner | src/flamenco/vm/syscall/fd_vm_syscall_cpi.c:9-15 | an account is reported as a signer exactly when its key is in the signer list |
| Cpi.FirstRef | src/flamenco/vm/syscall/fd_vm_syscall_cpi.c:98-103 | the first reference found is an earlier callee account for the same transaction account |
| Cpi.FirstRefIsLeast | src/flamenco/vm/syscall/fd_vm_syscall_cpi.c:98-103 | a first reference exists exactly when some reference exists, and none comes before it |
| Cpi.WritableInIsOr | src/flamenco/vm/syscall/fd_vm_syscall_cpi.c:119-120 | a transaction account is writable in the callee exactly when some reference to it is writable |
| Cpi.SignerInIsOr | src/flamenco/vm/syscall/fd_vm_syscall_cpi.c:119-120 | a transaction account is a signer in the callee exactly when some reference to it is a signer |
| Cpi.FirstRefs | src/flamenco/vm/syscall/fd_vm_syscall_cpi.c:121-142 | the de-duplicated accounts come from distinct references in increasing order |
| Cpi.FirstRefsAreFirst | src/flamenco/vm/syscall/fd_vm_syscall_cpi.c:121-142 | each de-duplicated account comes from the first reference to its transaction account |
| Cpi.UnknownRefStep | src/flamenco/vm/syscall/fd_vm_syscall_cpi.c:83-131 | a prefix holds an unknown reference exactly when it did before, or the new reference is USHORT_MAX, or it is a first reference with index_in_caller USHORT_MAX |
| Cpi.UnknownRefStays | src/flamenco/vm/syscall/fd_vm_syscall_cpi.c:83-90 | an unknown reference in a prefix makes the whole instruction fail |
| Cpi.MatchIsFirst | src/flamenco/vm/syscall/fd_vm_syscall_cpi.c:98-111 | a match found among the de-duplicated accounts is the first reference to that transaction account |
| Cpi.NoMatchIsNew | src/flamenco/vm/syscall/fd_vm_syscall_cpi.c:121-134 | no match among the de-duplicated accounts means the reference is the first to its transaction account |
| Cpi.FindMerged | src/flamenco/vm/syscall/fd_vm_syscall_cpi.c:97-103 | the search returns the FIRST index holding the transaction account (no earlier entry holds it, as the loop breaks on the first match), or none exactly when no entry holds it |
| Cpi.DedupStep | src/flamenco/vm/syscall/fd_vm_syscall_cpi.c:80-143 | one de-duplication step fails with MISSING_ACC exactly when the new reference is unknown, and otherwise keeps the accounts equal to the reference unification |
| Cpi.DedupAccounts | src/flamenco/vm/syscall/fd_vm_syscall_cpi.c:79-144 | de-duplication fails with MISSING_ACC exactly when some reference is unknown; otherwise each unique account holds the OR of its references' flags and each reference points at its unique account |
| Cpi.PrivFault | src/flamenco/vm/syscall/fd_vm_syscall_cpi.c:152-169 | one account's check fails only with the borrow error or PRIVILEGE_ESCALATION |
| Cpi.FirstPrivFaultIff | src/flamenco/vm/syscall/fd_vm_syscall_cpi.c:148-170 | the privilege loop passes exactly when every account passes, and otherwise reports some account's own fault |
| Cpi.CheckPrivileges | src/flamenco/vm/syscall/fd_vm_syscall_cpi.c:148-170 | the loop reports the first account's fault, in order |
| Cpi.CopyMerged | src/flamenco/vm/syscall/fd_vm_syscall_cpi.c:174-189 | the copy succeeds exactly when every reference points at a unique account, writing that account and its flags into the callee; otherwise it is NOT_ENOUGH_ACC_KEYS |
| Cpi.ProgramFault | src/flamenco/vm/syscall/fd_vm_syscall_cpi.c:191-237 | under lift_cpi_caller_restriction the program must be in the transaction; otherwise it must be an instruction account, borrowable and, unless the flag check is removed, executable |
| Cpi.PrepareInstruction | src/flamenco/vm/syscall/fd_vm_syscall_cpi.c:60-242 | preparation fails first on an unknown reference, then on the first privilege fault, then on the program checks, never with NOT_ENOUGH_ACC_KEYS; on success output k is the unification of all references to reference k's transaction account and the callee flags are overwritten with it |
| Cpi.CheckInstruction | src/flamenco/vm/syscall/fd_vm_syscall_cpi.c:295-322 | with loosen_cpi_size_restriction, data over 10240 then accounts over 255 are refused; without it the request fails exactly when 34·acct_cnt + data_sz exceeds 1280, despite the saturating arithmetic |
| Cpi.LoosenOnlyWidens | src/flamenco/vm/syscall/fd_vm_syscall_cpi.c:300-318 | an instruction accepted under the strict limit is accepted under the loosened one |
| Cpi.CpiMaxAccountInfos | src/flamenco/vm/syscall/fd_vm_syscall_cpi.c:268-271 | the limit is 128 exactly when increase_tx_account_lock_limit is active, and 64 otherwise |
| Cpi.CheckAuthorizedProgram | src/flamenco/vm/syscall/fd_vm_syscall_cpi.c:357-375 | a true result means the program is not supported as a CPI target (Agave's ProgramNotSupported): the three loaders and the precompiles are refused (secp256r1 only with its feature); the upgradeable loader is refused unless the first data byte is upgrade, set_authority or close, or a checked variant whose feature is active; any other program may be invoked |
| Cpi.IsPrecompile | src/flamenco/vm/syscall/fd_vm_syscall_cpi.c:341-346 | the keccak-secp256k1 and ed25519 verify programs are precompiles, secp256r1 is one exactly when its feature is active, and no other program is |
| Cpi.CheckedIxOnlyAdmitMore | src/flamenco/vm/syscall/fd_vm_syscall_cpi.c:369-372 | activating the checked set-authority and extend-program features can only make more upgradeable-loader instructions callable: anything refused with them active is refused without them |
| Cpi.AuthorityIgnoresData | src/flamenco/vm/syscall/fd_vm_syscall_cpi.c:363-374 | only the upgradeable loader's refusal depends on the instruction data |
| Bytes.SatAdd | src/flamenco/vm/syscall/fd_vm_syscall_cpi.c:313 | the saturating sum is the exact sum, or ULONG_MAX when that overflows |
| Bytes.SatMul | src/flamenco/vm/syscall/fd_vm_syscall_cpi.c:313 | the saturating product is the exact product, or ULONG_MAX when that overflows |

## Left out

- `src/discof/repair/fd_repair_tile.c` is not part of this model. It is network, signing and blockstore plumbing around the core.
- Memory fences, the AVX/SSE publish variants, `fd_laddr_to_chunk`, `FD_LOG_CRIT`, `chunk0` and `wmark`: these are concurrency and address translation. `publish` takes the chunk index as a parameter.
- The private reassembly header is not part of this model. The `slotq_*` helpers are written as a standard doubly linked index list: prev points toward the head, next toward the tail, with UINT_MAX as none. `slot_begin` is taken to make the slot BUSY with size 0.
- Header constants the model takes as given:
  - FD_TXN_MTU 1232 and FD_FRAG_META_ORIG_MAX 8192;
  - the ctl layout som | eom<<1 | err<<2 | orig<<3;
  - FD_VM_MEM_OP_BASE_COST 10 and FD_VM_CPI_BYTES_PER_UNIT 250;
  - FD_VM_RUST_ACCOUNT_META_SIZE 34 and FD_VM_MAX_CPI_INSTRUCTION_SIZE 1280;
  - the upgradeable-loader instruction numbers: upgrade 3, set_authority 4, close 5, set_authority_checked 7, extend_program_checked 9.
- The chunk size FD_TPU_REASM_MTU is a layout parameter; chunks are only required to hold FD_TXN_MTU bytes. `fd_mcache_line_idx` is modelled as `seq % depth`, which equals the mask for a power-of-two depth.
- The header struct's size and alignment are layout parameters. The magic value is an opaque constant.
- TpuReasm.PublishWith: the case where the map entry names the publishing slot itself is modelled as the code has it, but no invariant is proved for it, because the pool invariant rules it out.
- `fd_tls_encode_server_hello`: it depends on encode macros that are not part of this model.
- The serde macros are modelled as they behave:
  - a static batch checks the total size against the remaining bytes, then does big-endian reads;
  - a list begins with its length prefix, an alignment check, and DECODE_ERROR if it is longer than the remaining bytes;
  - a list ends with DECODE_ERROR unless it was consumed exactly.
- TlsProto.DecodeServerName: the host name is a byte sequence. Its NUL terminator and the fixed `host_name` buffer are not modelled.
- TlsProto.DecodeClientHelloWith: the decoded struct is passed in and returned. The flags are only ever set, as in the C code, which never clears them.
- TlsProto.DecodeClientHelloWith: fields that the code reads without storing are not kept. These are legacy_version and the compression method byte.
- In `fd_vm_syscall_cpi.c`, account borrowing, feature-flag lookup and log collection are inputs:
  - a borrow function from caller index to a key with flags, or an error;
  - a record of booleans for the features;
  - log collection is dropped.
- Cpi.CheckAuthorizedProgram: program ids are constructors, because the key bytes live in headers that are not part of this model.
- Cpi.CheckAuthorizedProgram: the comment above the C function says it decides whether a program is authorised, but the code computes Agave's refusal condition; the model follows the code and names the result `notSupported`. The caller that turns a true result into an error is not part of this model.
- The ABI accessor blocks (fd_vm_syscall_cpi.c:377-625) and the included `fd_vm_syscall_cpi_common.c` only read and write raw VM memory; `fd_vm_syscall_cpi_common.c` is not part of this model.
- The program check at fd_vm_syscall_cpi.c:219-225 tests an error already handled at 214-217, so it can never fire. The model keeps only the first test.
- The NOT_ENOUGH_ACC_KEYS guard at fd_vm_syscall_cpi.c:112-115 is not a branch of the model. `FindMerged` only returns indices below the merged count, so `DedupStep` asserts that the guard is false instead of branching on it. The guard at 185-188 is modelled in `CopyMerged`, and `PrepareInstruction` proves it is never taken.
- Cpi.PrepareInstruction: when a program check at fd_vm_syscall_cpi.c:191-237 fails, the C has already written the merged flags into the callee's account list (lines 183-184). The model's failure result carries only the error, not that partly updated callee.
- Cpi.PrepareInstruction: the 256-entry arrays are sequences. The caller's promise of at most 256 accounts is a precondition.
- SyscallGuards.HaddrTranslate: `fd_vm_mem_haddr` is an uninterpreted memory map from (vaddr, sz) to a host address, where 0 means unmapped, plus a multi-region flag. The store variant differs only in which region sizes that map consults, so one translation models both.
- The `_UNCHECKED`, `_NO_SZ_CHECK`, `_FAST` and input-region macros are not part of this model.
- SyscallGuards.TranslateMut: the inner loop reads `queries[j]` rather than the macro argument `_queries[j]`. It only works when the caller's array is named `queries`; the model assumes that.
- Alignment is checked as `haddr % align == 0` for align in {1, 2, 4, 8}.

## Findings

| source | as written | input that shows it | evidently intended | confidence | as-written member | corrected member |
|---|---|---|---|---|---|---|
| src/disco/quic/fd_tpu_reasm.c:72-94 | `reset` rewrites slot states and links but keeps `head` and `tail`; `publish` calls it to self-heal | depth 1, burst 2: `prepare` (head becomes slot 1), then a map entry corrupted to 7 and `publish` | reset restores head = slot_cnt-1 and tail = depth, so the healed queue is well linked | low: the queue helpers' header is not part of this model; not executed | TpuReasmProps.ResetAsWrittenCounterexample | TpuReasmProps.PublishHeals |
| src/disco/quic/fd_tpu_reasm.c:31 | `orig > FD_FRAG_META_ORIG_MAX` lets orig = FD_FRAG_META_ORIG_MAX through, and `orig<<3` then truncates to 0 in the 16-bit ctl | `new` with depth 1, burst 2, orig 8192 | refuse orig ≥ FD_FRAG_META_ORIG_MAX | low: the constant and the ctl layout come from headers that are not part of this model; not executed | TpuReasmProps.OrigBoundCounterexample | TpuReasmProps.NewOriginPublished |
| src/tango/tls/fd_tls_proto.c:136 | `ext_stop - wire_laddr` wraps when an extension header ends past `ext_stop`, so the declared size is never checked | the 45-byte ClientHello `03 03`, 32 zero bytes, `00 00 00 01 00 00 01 FF FF 03 E8` | the header must end inside the extension block and its data must fit before `ext_stop` | medium: not executed | TlsProto.ExtHeaderCrossingCounterexample | TlsProto.DecodeClientHello |
| src/tango/tls/fd_tls_proto.c:260 | `list_stop - wire_laddr` wraps when a name header ends past the list end; the name is then copied from beyond the buffer | server_name data `00 01 00 00 C8` | the name header and the name must end inside the list | medium: not executed | TlsProto.ServerNameOverreadCounterexample | TlsProto.DecodeServerName |
