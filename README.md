# MCReverseProxy core, modelled in Dafny

MCReverseProxy is a reverse proxy for Minecraft. For each client connection it does three things:

1. It reads the client's first packet, the handshake, from a length-prefixed frame.
2. It replaces the server address in the handshake with the backend's host name. It writes the rewritten frame to the backend, followed by any bytes it had already read past the frame (the "overflow").
3. It then splices the two sockets together.

The backend is found through DNS SRV records. They are tried in the order given by RFC 2782 (section "The format of the SRV RR", the Priority and Weight fields):
- ascending priority;
- within one priority, a weighted random pick without replacement.

Before grouping, the records are sorted with `sort_unstable`. That sort compares with `lt`, and `SrvRecord` gets `lt` from its derived `PartialOrd`, which compares priority, weight, port and target in that order. The hand-written `Ord`, which compares priority alone, is not what the sort uses. So within one priority the records come in ascending weight, and the weighted scan meets the zero-weight records first, as RFC 2782 asks.

This project models two source files.

`src/srv.rs` is modelled in its imperative form:
- `Srv.SortUnstable` is an in-place insertion sort of an `array` that compares with the derived `lt`.
- `Srv.WeightedSrvMap` is a class whose `records` shrink as `next` removes a pick.
- `Srv.PriorityGroupIter` is a class with the look-ahead field `nCache` and a `while` loop in `Pull`.
- `Srv.PrioritySrvLoader` is a class that swaps its `currentMap`.

Each method is proved against the pure definitions in `SrvSpec`:
- `FirstReaching` is the weighted scan;
- `RemoveAt` is `Vec::remove`;
- `Groups` is the split into maximal equal-priority runs;
- `PrioritySorted` states that priorities are ascending;
- `PartialCmp` and `Lt` are the derived field-by-field order, and `Ordered` is the state `sort_unstable` leaves.

The random draw `rng.gen_range(0..=total)` is a caller-supplied function `draw` with `draw(t) <= t`.

`src/proxy.rs` is modelled in two parts:
- The handshake codec is pure functions (`Codec`, `Proxy`), with round-trip and error lemmas.
- `MinecraftReverseProxy` is a class. Its `inbound` field holds the client bytes not yet read, its `outbound` field holds the bytes written to the backend, and its `overflow` field holds the read-ahead.

The wire format is Minecraft's:
- VarInts: seven data bits per byte, least-significant group first, a continuation bit, at most five bytes, and two's complement for negative values.
- strings: a VarInt byte length, then the bytes;
- `u16`: big-endian;
- frames: a VarInt length, then the payload.

This format is declared by the attributes in `src/proxy.rs`. The drax code that implements it is not part of this model.

Files:
- `base.dfy`: the `Option` and `Result` wrappers and the integer widths.
- `srv_spec.dfy`: the record type, the specification functions and the lemmas about them.
- `srv.dfy`: the resolver classes.
- `codec.dfy`: the byte codec.
- `proxy.dfy`: the handshake and the interceptor.

## Model

| member | source | states |
|---|---|---|
| SrvSpec.Eq | src/srv.rs:26-30 | two records are `eq` exactly when they become identical once weight, port and target are taken from the other: only the priority is compared |
| SrvSpec.Cmp | src/srv.rs:32-36 | records compare by priority alone: `Less`, `Equal`, `Greater` exactly as the priorities do, and `Equal` is the priority-only `eq` |
| SrvSpec.CmpStr | src/srv.rs:7-13 | the order of the `target` strings: `Equal` exactly for equal strings |
| SrvSpec.CmpStrReverse | src/srv.rs:7-13 | swapping two strings reverses their comparison |
| SrvSpec.CmpStrTransitive | src/srv.rs:7-13 | the string order is transitive |
| SrvSpec.PartialCmp | src/srv.rs:7-13 | the derived comparison is `Equal` exactly for identical records; a difference in priority decides it, and with equal priorities a difference in weight does |
| SrvSpec.PartialCmpReverse | src/srv.rs:7-13 | swapping two records reverses their derived comparison |
| SrvSpec.LtTransitive | src/srv.rs:7-13 | the derived `lt` is transitive |
| SrvSpec.NotLtTransitive | src/srv.rs:7-13 | "not after" is transitive as well, so `lt` is a strict total order on records |
| SrvSpec.Lt | src/srv.rs:7-13 | the derived `lt`, the only comparison `sort_unstable` makes: a lower priority is always before, and at equal priority a lower weight is always before; `lt` never holds between identical records |
| SrvSpec.OrderedUnique | src/srv.rs:109 | two ordered rearrangements of the same records are the same sequence: whatever algorithm `sort_unstable` runs, its result is determined, even among equal priorities |
| SrvSpec.OrderedByPriority | src/srv.rs:7-13 | a sequence ordered by the derived `lt` has ascending priorities |
| SrvSpec.OrderedWeightsAscend | src/srv.rs:7-13 | in an ordered sequence, records of the same priority come in ascending weight, so zero-weight records come before the others |
| SrvSpec.ZeroDrawPicksLightest | src/srv.rs:54-66 | in a sorted group the draw 0 picks the first record, which has the smallest weight of the group |
| SrvSpec.RemoveAt | src/srv.rs:71 | `Vec::remove(k)` drops exactly the element at `k`: the ones before keep their index, the ones after shift down by one, and the multiset loses exactly that element |
| SrvSpec.FirstReaching | src/srv.rs:55-66 | for a non-empty group and a draw `v` in `[0, total]`, the scan stops at an index whose running weight sum reaches `v`, and every earlier running sum is below `v` (the smallest such index) |
| SrvSpec.PickInterval | src/srv.rs:60-66 | the draw `v` picks record `k` if and only if `v` lies in `k`'s slice of the running sum: above the sum before `k` (or `k` is the first record) and at most the sum through `k` |
| SrvSpec.FirstRecordExtraDraw | src/srv.rs:53-66 | for one priority holding weights 1 and 10, the derived order puts the weight-1 record first, and it is then picked by 2 of the 12 draws, the other by 10 |
| SrvSpec.PickShare | src/srv.rs:53-66 | of the `total + 1` possible draws, exactly `weight(k)` pick record `k`, plus the draw 0 for the first record: every record after the first is picked in proportion to its weight, and the first gets one extra draw |
| SrvSpec.ZeroWeightsPickFirst | src/srv.rs:54-64 | when every weight of a group is 0 the total is 0 and every draw picks the first record, so zero-weight records are still yielded |
| SrvSpec.PositiveWeightReachable | src/srv.rs:55-66 | every record of positive weight is picked by some draw in `[0, total]` |
| SrvSpec.SumWeightsRemoveAt | src/srv.rs:46-49 | removing a record lowers the group's weight total by exactly that record's weight |
| SrvSpec.FirstGroupFits | src/srv.rs:46-49 | if every priority's weight sum fits a `u16`, the first group's total fits the `u16` accumulator and so does every priority of what remains |
| SrvSpec.RunLength | src/srv.rs:128-135 | the number of leading records with priority `p`: all of them have it and the next one, if any, does not |
| SrvSpec.GroupsFlatten | src/srv.rs:141-149 | concatenating the groups gives back the input stream, no record dropped or added |
| SrvSpec.GroupsAreRuns | src/srv.rs:124-138 | every group is non-empty and has a single priority |
| SrvSpec.GroupsAreMaximal | src/srv.rs:129-131 | adjacent groups differ in priority |
| SrvSpec.GroupsAscending | src/srv.rs:128-131 | on a priority-sorted stream each group's priority is below the next group's |
| SrvSpec.PickKeepsSorted | src/srv.rs:85-87 | emitting any record of the single-priority current group, wherever it sits in the group, keeps the emitted-then-remaining stream priority-sorted |
| SrvSpec.PriorityWeightPermutation | src/srv.rs:109 | rearranging the records leaves each priority's weight sum unchanged, so sorting keeps the `u16` bound |
| Srv.SortUnstable | src/srv.rs:109 | `sort_unstable` with the derived `lt`: afterwards no record of the array is `lt` a record before it, and the array holds the same multiset of records |
| Srv.Insert | src/srv.rs:109 | one insertion step extends the ordered prefix by one record, keeps the multiset, and leaves every record after position `i` where it was |
| Srv.SortedRecords | src/srv.rs:108-109 | the owned vector after `sort_unstable`: ordered by the derived `lt`, same multiset of records |
| Srv.WeightedSrvMap.constructor | src/srv.rs:137 | `WeightedSrvMap { records }` holds exactly the records pulled |
| Srv.WeightedSrvMap.Next | src/srv.rs:45-73 | empty group: `None`, still empty. Non-empty group: `Some` of the record at `FirstReaching(records, draw(total))`, never the `removed == irm` case, and `records` becomes the old vector with exactly that index removed |
| Srv.PriorityGroupIter.constructor | src/srv.rs:156-162 | `priority_groupings()` starts with the whole stream pending and an empty `n_cache` |
| Srv.PriorityGroupIter.Pull | src/srv.rs:124-138 | the new map holds `first` and the run of records after it with the same priority. If a record ends the run, it is in `n_cache` and `inner` is what follows it; otherwise `n_cache` is empty and `inner` is exhausted |
| Srv.PullSplit | src/srv.rs:128-135 | where `pull`'s loop stops (stream exhausted, or a record of another priority) is exactly after the run `RunLength` measures |
| Srv.PulledIsFirstGroup | src/srv.rs:141-149 | what `pull` collects from a pending stream is that stream's first group in `Groups`, and the rest is the remainder |
| Srv.PriorityGroupIter.Next | src/srv.rs:144-149 | `None` exactly when nothing is pending, the cached record included; otherwise a fresh non-empty map holding the first group of the pending stream, with `Groups(old pending) == [group] + Groups(new pending)` |
| Srv.LoaderInvInit | src/srv.rs:108-115 | the freshly built loader satisfies the invariant: nothing emitted, the sorted records pending, every priority's weight sum a `u16` |
| Srv.LoaderInvPick | src/srv.rs:85-88 | yielding any record of the current group keeps the invariant: each record is counted once among emitted, current and pending, and the whole stream stays sorted |
| Srv.LoaderInvLoad | src/srv.rs:94-96 | moving the next group into `current_map` keeps the invariant, and the new current group has one priority and a weight total that fits a `u16` |
| Srv.LoaderInvDone | src/srv.rs:84-100 | with nothing current or pending, what was emitted is a permutation of the input in ascending priority |
| Srv.PrioritySrvLoader.constructor | src/srv.rs:108-115 | `PrioritySrvLoader::new`: the invariant holds, nothing emitted, no current map, and the pending stream still to yield is the input rearranged (same multiset) and ordered by the derived `lt` |
| Srv.PrioritySrvLoader.PickFromCurrent | src/srv.rs:85-88 | `current.next()`: `None` exactly when the current group is empty; `Some(x)` appends `x` to what was emitted and removes from the current group exactly the record at the first index whose running weight sum reaches `draw(total weight)`, keeping the invariant |
| Srv.PrioritySrvLoader.LoadGroup | src/srv.rs:94-97 | `inner_maps.next()`: a group is loaded exactly when records remain; what remains to yield is unchanged, and the pending stream's groups are the loaded current group followed by the groups still pending |
| Srv.PrioritySrvLoader.Next | src/srv.rs:84-100 | `None` exactly when nothing remains to yield (empty current groups are dropped and the next group loaded in between); `Some(x)` appends `x` to the emitted records and leaves one record fewer; `x` has the priority of the first record still to yield, the lowest one, and comes from the current group when that is not empty; the invariant is kept |
| Srv.Candidates | src/srv.rs:84-115 | draining `PrioritySrvLoader::new(records)` yields each record exactly once (a permutation) with priorities never decreasing, for weights whose per-priority sums fit a `u16`, whatever the draws |
| Codec.SignedUnsignedInverse | src/proxy.rs:23 | a VarInt's `i32` and its 32-bit two's-complement pattern convert into each other without loss |
| Codec.EncodeUnsignedShape | src/proxy.rs:23 | in a VarInt encoding only the last byte lacks the continuation bit |
| Codec.EncodeUnsignedFits | src/proxy.rs:23 | every 32-bit pattern takes at most five VarInt bytes |
| Codec.DecodeUnsigned | src/proxy.rs:23 | a decoded pattern is below `2^32`, and the decoder took one to five bytes |
| Codec.DecodeEncodeUnsigned | src/proxy.rs:23 | decoding an encoded 32-bit pattern gives it back and leaves the following bytes untouched |
| Codec.TruncatedVarInt | src/proxy.rs:23 | a VarInt cut short is refused with `EndOfInput`, never read as a smaller value |
| Codec.OverlongVarInt | src/proxy.rs:23 | five bytes all carrying the continuation bit are refused with `VarIntTooLong` |
| Codec.DecodeUnsignedFromLeavesTail | src/proxy.rs:23 | the decoder takes bytes only from the front: what it leaves is the tail of its input |
| Codec.EncodeVarInt | src/proxy.rs:23 | every `i32` takes one to five bytes, and a value below 128 is the single byte itself |
| Codec.DecodeEncodeVarInt | src/proxy.rs:13-23 | every `i32` survives the round trip through its VarInt bytes, nothing after them consumed |
| Codec.DecodeVarInt | src/proxy.rs:23 | a decoded VarInt took one to five bytes from the front of the input |
| Codec.DecodeLength | src/proxy.rs:24-25 | a length read is a VarInt read whose value is not negative and at most `2^31 - 1`; a `NegativeLength` error carries the negative value the VarInt declared |
| Codec.DecodeEncodeLength | src/proxy.rs:24-25 | a length written as a VarInt reads back as itself with the rest untouched; a negative one is refused with `NegativeLength` and that value |
| Codec.EncodeString | src/proxy.rs:24-25 | a string field ends with the string's bytes, behind a one-to-five-byte length prefix |
| Codec.DecodeString | src/proxy.rs:24-25 | a decoded string is never longer than its limit and consumes bytes from the input |
| Codec.DecodeEncodeString | src/proxy.rs:24-25 | a string within its limit comes back as written, followed by the untouched rest |
| Codec.OverlongString | src/proxy.rs:24-25 | a string declared longer than its limit is refused with its declared length, not truncated |
| Codec.EncodeFrame | src/proxy.rs:76 | a frame is the payload behind a one-to-five-byte length header |
| Codec.DecodeFrame | src/proxy.rs:64-70 | a frame read consumes at least one byte of header and at most five, across the payload and the rest |
| Codec.DecodeFrameSplit | src/proxy.rs:64-70 | a frame read takes a header of one to five bytes, then the payload; the bytes after the frame are the rest of the input, in order |
| Codec.DecodeEncodeFrame | src/proxy.rs:64-76 | reading a written frame gives back its payload and leaves every byte after the frame for the next reader |
| Codec.EncodeU16 | src/proxy.rs:26 | a `u16` field takes exactly two bytes |
| Codec.DecodeU16 | src/proxy.rs:26 | a `u16` read fails exactly when fewer than two bytes remain, and otherwise leaves everything after the first two bytes |
| Codec.DecodeEncodeU16 | src/proxy.rs:26 | a `u16` survives its two big-endian bytes |
| Proxy.NextStateKey | src/proxy.rs:13-19 | the VarInt key of a `NextState` variant is 0, 1 or 2 |
| Proxy.EncodeNextState | src/proxy.rs:13-19 | a `NextState` is written as a single byte |
| Proxy.DecodeNextState | src/proxy.rs:13-19 | a decoded `NextState` took at least one byte |
| Proxy.NextStateOfKey | src/proxy.rs:13-19 | a key names a variant exactly when it is 0, 1 or 2, and the variant it names has that key |
| Proxy.NextStateKeyInverse | src/proxy.rs:13-19 | each variant's key names that variant: the keys are distinct |
| Proxy.DecodeEncodeNextState | src/proxy.rs:13-19 | every `NextState` survives its VarInt key |
| Proxy.UnknownNextState | src/proxy.rs:13-19 | any key other than 0, 1, 2 is refused with `UnknownTag(key)` |
| Proxy.EncodeHandshake | src/proxy.rs:21-28 | a handshake's fields take at most the address length plus 13 bytes |
| Proxy.DecodeHandshake | src/proxy.rs:21-28 | a decoded handshake's address is at most 255 bytes |
| Proxy.DecodeEncodeHandshake | src/proxy.rs:21-28 | a handshake with an address of at most 255 bytes comes back field by field, in the order protocol version, address, port, next state |
| Proxy.OverlongAddress | src/proxy.rs:24 | a handshake whose address is longer than 255 bytes fails to decode with the declared length; it is never truncated |
| Proxy.EncodePacket | src/proxy.rs:30-34 | the key of `HandshakeWrapper::Handshake` plus the handshake take at most the address length plus 14 bytes |
| Proxy.DecodePacket | src/proxy.rs:55 | a decoded `HandshakeWrapper` holds a handshake whose address is at most 255 bytes |
| Proxy.DecodeEncodePacket | src/proxy.rs:30-34 | a `HandshakeWrapper::Handshake(h)` payload (key 0) decodes back to `h` |
| Proxy.UnknownPacket | src/proxy.rs:30-34 | a payload keyed other than 0 is refused with `UnknownTag(key)` |
| Proxy.Process | src/proxy.rs:49-59 | the handshake `process` hands back has an address of at most 255 bytes |
| Proxy.ProcessEncoded | src/proxy.rs:49-59 | `process` returns the wrapped handshake itself, ignoring bytes after it, or the address-length error when the address is over the limit |
| Proxy.ReadPacket | src/proxy.rs:63-70 | a successful pipeline read yields a handshake with a bounded address and strictly fewer bytes than it was given |
| Proxy.ReadPacketLeavesTail | src/proxy.rs:63-71 | the bytes after the handshake frame are the stream's own tail, none dropped or reordered |
| Proxy.WritePacket | src/proxy.rs:76-80 | the writer chain's output is the encoded packet behind a frame header of at least one byte |
| Proxy.ReadWritten | src/proxy.rs:63-80 | what the writer chain produces, the reading pipeline reads back: the same handshake, and every byte after the frame |
| Proxy.Forwarded | src/proxy.rs:121-127 | the forwarded handshake has the target address and agrees with the client's in every other field |
| Proxy.ForwardedReadsBack | src/proxy.rs:121-127 | the backend reads back the client's protocol version, port and next state with the target address, whatever address and next state the client sent |
| Proxy.MinecraftReverseProxy.constructor | src/proxy.rs:112-116 | a new interceptor has no overflow and has written nothing |
| Proxy.MinecraftReverseProxy.ReadHandshake | src/proxy.rs:63-73 | succeeds exactly when the pipeline read does and returns its handshake; the bytes after the frame are split into the buffered `overflow`, the first `min(readAhead, n)` of them, and the still-unread `inbound`, the rest, with nothing lost; on an error `overflow` is left as it was; nothing is written |
| Proxy.MinecraftReverseProxy.WriteHandshake | src/proxy.rs:75-87 | appends the encoded frame and then the overflow, if any, to `outbound`, nothing in between, and leaves `overflow` empty, so overflow is forwarded at most once |
| Proxy.ProxyConnection | src/proxy.rs:107-131 | on a bad handshake, fails with the decoding error and writes nothing. Otherwise the backend has received exactly the rewritten frame followed by the bytes read past the client's frame, the client's other bytes are still unread, together every byte the client sent after its handshake frame, in order, and no overflow is left. The login line is logged exactly when the next state is `Login` |

## Left out

- `src/main.rs`: configuration loading, the logger and the accept loop are process-level I/O.
- The candidate connect loop and `connect_basic`: these are network connects. `Srv.Candidates` stands for the resolver order that loop follows.
- `spawn_proxy` and `tokio::io::copy_bidirectional`: concurrent byte splicing after the handshake. `Proxy.ProxyConnection` states the byte streams up to the hand-off.
- The trust-dns lookup, `From<&SRV>`, `from_trust_iter` and `IntoPriorityResolver`: these only copy fields out of foreign types.
- `rand::thread_rng`: the random draw is the caller's `draw` function. Probabilities are stated only as counts of draws (`SrvSpec.PickShare`).
- `MC_BUFFER_CAPACITY`: a buffer capacity hint with no behaviour attached. There is no maximum frame size in the model.
- The drax pipeline's socket reads: the model's `inbound` is every byte the client will send. How much the buffered read pulls past the frame is the parameter `readAhead`.
- `log::info!`: the log line becomes the out-parameter `loginLogged`.
- Outbound write errors in `write_handshake`: socket I/O is not modelled.
- `Srv.WeightedSrvMap.Next`: requires the group's weights to sum to at most 65535. The source adds them in a `u16` and would overflow past that.
- `Srv.PrioritySrvLoader.constructor`: requires every priority's weights to sum to at most 65535, for the same reason.
- `Srv.PrioritySrvLoader.Next`: says which group the yielded record comes from and its priority, not which record of the group it is. `Srv.WeightedSrvMap.Next` pins the pick.
- `Srv.SortUnstable`: an insertion sort stands for the pattern-defeating quicksort behind `sort_unstable`. The two may compare in a different sequence, but by `SrvSpec.OrderedUnique` they leave the same result.
- `Proxy.MinecraftReverseProxy.ReadHandshake`: on a decoding error `inbound` is left unchanged. In the source, the bytes already read are gone and the connection is abandoned.
- `Codec.DecodeString`: does not reject byte strings that are not valid UTF-8, which decoding into a Rust `String` would. The address is kept as bytes.
- `Codec.DecodeUnsigned`: the drax VarInt decoder is not part of this model. The model follows the Minecraft convention: at most five bytes, and values of 32 bits. Its error names are the model's own.
- `Proxy.Writable`: strings and frames longer than `2^31 - 1 - 14` bytes are outside the model. Their length would not fit the VarInt prefix.
