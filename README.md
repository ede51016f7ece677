# ICSSG PRU Ethernet driver header: a Dafny model

This project models the definitions with statable behaviour in the header of
the TI ICSSG Ethernet driver (`drivers/net/ethernet/ti/icssg_prueth.h`). In
this driver, firmware running on the PRU cores of the ICSS subsystem does the
MAC and switch work. The host driver hands buffers and commands to that
firmware. The header fixes the vocabulary both sides share:

- `PortSlice` (`port_slice.dfy`): the `prueth_port` enum and
  `prueth_emac_slice`. The two RG/SG MII ports map to PRUSS slices 0 and 1.
  The host port maps to `-EINVAL`.
- `Headroom` (`headroom.dfy`): `PRUETH_HEADROOM_NA` and `PRUETH_HEADROOM`,
  the receive-buffer headroom that serves both an skb and an xdp_frame. The
  kernel `ALIGN` is written as its mask expression `(x + a - 1) & ~(a - 1)`.
  The mask is computed bit by bit on naturals and proved equal to rounding
  down to a multiple of `a`.
- `XdpVerdict` (`xdp_verdict.dfy`): the XDP verdict word. PASS is 0.
  CONSUMED, TX and REDIR are bits 0-2. A word reads as the set of outcomes it
  carries.
- `Handshake` (`handshake.dfy`): the firmware status words `FW_READY` and
  `FW_DEAD | code`, and the command flags BUSY, DONE and CANCEL.
- `FwCommand` (`fw_command.dfy`): the firmware command codes. Code 0x5 is
  shared by GET_FDB_SLOT and ENABLE_VLAN.
- `SwData` (`swdata.dfy`): `prueth_swdata` as a sum type, with the C layout
  (tag, union word, rx-channel pointer) as a raw record and encode/decode
  between the two.
- `TxTimestamp` (`tx_timestamp.dfy`): the TX-timestamp cookie. It is an index
  into the 50-slot `tx_ts_skb` table. The model also holds the
  `emac_tx_ts_response` record that echoes the cookie.
- `Common` (`common.dfy`): `Option` and the C `u32`.

Some values come from other kernel headers: `XDP_PACKET_HEADROOM`,
`NET_SKB_PAD`, `NET_IP_ALIGN`, `sizeof(long)` and `EINVAL`. They are
parameters here. The only assumptions are that the word size is a positive
power of two and that `EINVAL` is positive.

## Model

| member | source | states |
|---|---|---|
| `PortSlice.PortValue` | drivers/net/ethernet/ti/icssg_prueth.h:87-91 | enumerator values of `prueth_port` lie in 0..2 |
| `PortSlice.PortOfValue` | drivers/net/ethernet/ti/icssg_prueth.h:87-91 | a value names a port exactly when it is 0, 1 or 2, and then it is that port's enumerator value |
| `PortSlice.EmacSlice` | drivers/net/ethernet/ti/icssg_prueth.h:356-366 | result is `ICSS_SLICE0` iff the port is MII0, `ICSS_SLICE1` iff MII1, and `-EINVAL` (negative) iff it is not a physical port |
| `PortSlice.EmacSliceOfValue` | drivers/net/ethernet/ti/icssg_prueth.h:356-366 | on a raw `port_id` value the result is slice 0 iff the value is MII0's, slice 1 iff it is MII1's, and `-EINVAL` for every other value (the default branch) |
| `PortSlice.PortValueRoundTrip` | drivers/net/ethernet/ti/icssg_prueth.h:87-91 | an enumerator read back from its value is the same enumerator |
| `PortSlice.EmacSliceOfValueAgrees` | drivers/net/ethernet/ti/icssg_prueth.h:356-366 | on an enumerator's value the raw switch gives what the switch on the port gives |
| `PortSlice.SlicePort` | drivers/net/ethernet/ti/icssg_prueth.h:45-46 | only slices 0 and 1 have a port, and that port is physical |
| `PortSlice.EmacSliceRange` | drivers/net/ethernet/ti/icssg_prueth.h:363-365 | every result is in {0, 1, -EINVAL} |
| `PortSlice.EmacSliceInjective` | drivers/net/ethernet/ti/icssg_prueth.h:358-362 | the two physical ports map to distinct slices |
| `PortSlice.SliceRoundTrip` | drivers/net/ethernet/ti/icssg_prueth.h:356-366 | the slice of a physical port leads back to that port; the host port's result names no slice |
| `PortSlice.PortRoundTrip` | drivers/net/ethernet/ti/icssg_prueth.h:356-366 | the port found for a slice is mapped back to that slice |
| `Headroom.Max` | drivers/net/ethernet/ti/icssg_prueth.h:241 | the kernel `max` is an upper bound of both arguments and equals one of them |
| `Headroom.HeadroomNA` | drivers/net/ethernet/ti/icssg_prueth.h:241 | `PRUETH_HEADROOM_NA` covers both the XDP and the skb headroom plus the IP pad, and equals one of the two sums |
| `Headroom.PruethHeadroom` | drivers/net/ethernet/ti/icssg_prueth.h:242 | `PRUETH_HEADROOM` is a multiple of `sizeof(long)` in `[HEADROOM_NA, HEADROOM_NA + sizeof(long))` |
| `Headroom.ClearLowBitsRoundsDown` | drivers/net/ethernet/ti/icssg_prueth.h:242 | the `ALIGN` mask `v & ~(a - 1)` equals `v - v % a` for a power-of-two `a` |
| `Headroom.ClearLowBits` | drivers/net/ethernet/ti/icssg_prueth.h:242 | the mask `v & ~(a - 1)` for a power-of-two `a` drops less than `a` from `v` and never adds to it |
| `Headroom.Align` | drivers/net/ethernet/ti/icssg_prueth.h:242 | the kernel `ALIGN(x, a)` = `(x + a - 1) & ~(a - 1)` is a multiple of `a` with `x <= ALIGN(x, a) < x + a` |
| `Headroom.AlignIsLeast` | drivers/net/ethernet/ti/icssg_prueth.h:242 | no multiple of `a` that is at least `x` is below `ALIGN(x, a)` |
| `Headroom.AlignIdempotent` | drivers/net/ethernet/ti/icssg_prueth.h:242 | aligning an aligned value changes nothing |
| `Headroom.AlignMonotone` | drivers/net/ethernet/ti/icssg_prueth.h:242 | `ALIGN` preserves order |
| `Headroom.HeadroomServesSkbAndXdp` | drivers/net/ethernet/ti/icssg_prueth.h:240-242 | the headroom is at least `XDP_PACKET_HEADROOM + NET_IP_ALIGN` and at least `NET_SKB_PAD + NET_IP_ALIGN` |
| `Headroom.HeadroomIsSmallest` | drivers/net/ethernet/ti/icssg_prueth.h:241-242 | the headroom is the smallest word multiple holding `PRUETH_HEADROOM_NA` |
| `Headroom.HeadroomExactWhenAligned` | drivers/net/ethernet/ti/icssg_prueth.h:241-242 | an already aligned `PRUETH_HEADROOM_NA` is left as it is |
| `XdpVerdict.OutcomeBit` | drivers/net/ethernet/ti/icssg_prueth.h:166-168 | CONSUMED, TX and REDIR are single bits within the verdict mask, so an outcome's word is never read as PASS |
| `XdpVerdict.Encode` | drivers/net/ethernet/ti/icssg_prueth.h:165-168 | the OR of a set of outcomes has no bit outside the mask and has an outcome's bit iff the outcome is in the set |
| `XdpVerdict.Decode` | drivers/net/ethernet/ti/icssg_prueth.h:165-168 | a word carries an outcome iff its bit is set, and carries none iff its verdict bits are PASS |
| `XdpVerdict.PassIsEmptySet` | drivers/net/ethernet/ti/icssg_prueth.h:165 | `ICSSG_XDP_PASS` is the encoding of the empty set and of no other set |
| `XdpVerdict.OutcomeBitsDisjoint` | drivers/net/ethernet/ti/icssg_prueth.h:166-168 | two outcome bits are disjoint iff the outcomes differ |
| `XdpVerdict.DecodeEncode` | drivers/net/ethernet/ti/icssg_prueth.h:165-168 | decoding an OR of outcomes gives back exactly that set |
| `XdpVerdict.EncodeDecode` | drivers/net/ethernet/ti/icssg_prueth.h:165-168 | any word within the mask is the encoding of what it decodes to |
| `XdpVerdict.EncodeUnion` | drivers/net/ethernet/ti/icssg_prueth.h:165-168 | OR-ing two verdict words is the union of their outcome sets |
| `Handshake.EncodeStatus` | drivers/net/ethernet/ti/icssg_prueth.h:57-58 | only READY encodes to `ICSS_HS_FW_READY`; a DEAD word has `0xDEAD` in its high half and the error code in its low half |
| `Handshake.DecodeStatus` | drivers/net/ethernet/ti/icssg_prueth.h:57-58 | a word reads as READY iff it is `FW_READY`, as DEAD iff its high half is `0xDEAD`, and the code is the low 16 bits |
| `Handshake.StatusRoundTrip` | drivers/net/ethernet/ti/icssg_prueth.h:57-58 | reading a written status gives that status back |
| `Handshake.StatusDecodeUnique` | drivers/net/ethernet/ti/icssg_prueth.h:57-58 | a word that reads as a status is exactly that status's word |
| `Handshake.StatusEncodeInjective` | drivers/net/ethernet/ti/icssg_prueth.h:57-58 | distinct statuses have distinct words; no `FW_DEAD` OR-ed with a code equals `FW_READY` |
| `Handshake.FlagBit` | drivers/net/ethernet/ti/icssg_prueth.h:61-63 | BUSY, DONE and CANCEL are each a single bit |
| `Handshake.EncodeFlags` | drivers/net/ethernet/ti/icssg_prueth.h:61-63 | the OR of a set of flags has only flag bits and has a flag's bit iff the flag is in the set |
| `Handshake.DecodeFlags` | drivers/net/ethernet/ti/icssg_prueth.h:61-63 | a word has a flag iff that flag's bit is set |
| `Handshake.FlagBitsDisjoint` | drivers/net/ethernet/ti/icssg_prueth.h:61-63 | the three flag bits are pairwise disjoint |
| `Handshake.FlagsRoundTrip` | drivers/net/ethernet/ti/icssg_prueth.h:61-63 | decoding an OR of flags gives back exactly those flags |
| `Handshake.FlagsDecodeUnique` | drivers/net/ethernet/ti/icssg_prueth.h:61-63 | any word with only flag bits is the OR of the flags it decodes to |
| `Handshake.StatusWordsCarryFlagBits` | drivers/net/ethernet/ti/icssg_prueth.h:57-63 | `FW_READY` has the BUSY and CANCEL bits set and every `FW_DEAD` OR-ed with a code has all three flag bits, so a status word cannot be told from a flag word by value |
| `FwCommand.Code` | drivers/net/ethernet/ti/icssg_prueth.h:66-76 | every command code is in 0x1..0x8, or is 0x10 or 0x20 |
| `FwCommand.CommandsWithCode` | drivers/net/ethernet/ti/icssg_prueth.h:66-76 | the commands a code may stand for are exactly those encoded to it |
| `FwCommand.CodeNotInjective` | drivers/net/ethernet/ti/icssg_prueth.h:72-73 | GET_FDB_SLOT and ENABLE_VLAN are distinct commands with the same code 0x5 |
| `FwCommand.OnlyClashIsFive` | drivers/net/ethernet/ti/icssg_prueth.h:66-76 | every other pair of distinct commands has distinct codes |
| `FwCommand.DecodingAmbiguousOnlyAtFive` | drivers/net/ethernet/ti/icssg_prueth.h:66-76 | each code other than 0x5 names at most one command; 0x5 names exactly two |
| `FwCommand.EveryCodeUsed` | drivers/net/ethernet/ti/icssg_prueth.h:66-76 | each of 0x1..0x8, 0x10 and 0x20 is the code of some command |
| `SwData.TypeValue` | drivers/net/ethernet/ti/icssg_prueth.h:136-142 | the `prueth_swdata_type` values are 0..4, and 0 is exactly INVALID |
| `SwData.TypeOfValue` | drivers/net/ethernet/ti/icssg_prueth.h:136-142 | a value names a type iff it is below 5, and then it is that type's value |
| `SwData.TypeValueRoundTrip` | drivers/net/ethernet/ti/icssg_prueth.h:136-142 | a type read back from its value is the same type |
| `SwData.TypeOf` | drivers/net/ethernet/ti/icssg_prueth.h:136-155 | the tag of a descriptor always matches the union member that is populated |
| `SwData.ToRaw` | drivers/net/ethernet/ti/icssg_prueth.h:144-155 | the laid-out struct carries the tag of its payload and the descriptor's rx channel pointer |
| `SwData.FromRaw` | drivers/net/ethernet/ti/icssg_prueth.h:144-155 | a raw struct is read iff its tag is a known type, and the payload read carries that tag and the struct's rx channel pointer |
| `SwData.RawRoundTrip` | drivers/net/ethernet/ti/icssg_prueth.h:144-155 | laying a descriptor out and reading it back gives the same descriptor |
| `SwData.RawDecodeUnique` | drivers/net/ethernet/ti/icssg_prueth.h:144-155 | a well-formed raw struct is the layout of what it reads as |
| `SwData.TagDeterminesVariant` | drivers/net/ethernet/ti/icssg_prueth.h:151-155 | payloads with equal tags populate the same union member |
| `TxTimestamp.ResponseCookie` | drivers/net/ethernet/ti/icssg_prueth.h:336-341 | a response names a cookie iff its cookie word is below `PRUETH_MAX_TX_TS_REQUESTS`, and then it names that index |
| `TxTimestamp.CookieWord` | drivers/net/ethernet/ti/icssg_prueth.h:210-211 | a cookie is sent as the word with its own value |
| `TxTimestamp.CookieRoundTrip` | drivers/net/ethernet/ti/icssg_prueth.h:336-341 | a cookie echoed back in a response is recognised as that cookie |
| `TxTimestamp.CookiesAreTableIndices` | drivers/net/ethernet/ti/icssg_prueth.h:162 | the valid cookies are exactly the indices 0..49 of `tx_ts_skb` |
| `TxTimestamp.CookieWordInjective` | drivers/net/ethernet/ti/icssg_prueth.h:210-211 | distinct cookies go out as distinct words |

## Left out

- Functions declared in the header but defined elsewhere: `icssg_queue_pop`/`push`/`level`, `icssg_vtbl_modify`, `icssg_get_pvid`/`set_pvid`, `icssg_send_fdb_msg`, `icssg_fdb_add_del`/`lookup`, `emac_set_port_state`, `emac_fdb_*` and `icssg_config*`. Their bodies are not part of this model, so no behaviour is stated for them.
- The TX-timestamp reserve/resolve logic, the pending counter and the 64-bit timestamp built from `lo_ts`/`hi_ts`. That code lives outside the header. Only the cookie domain and the response record are modelled.
- Atomics, locks and completions (`tdown_cnt`, `tx_ts_pending`, `tdown_complete`, `cmd_complete`, `cmd_lock`, `lock`, `vtbl_lock`). They coordinate interrupt, NAPI and work contexts.
- DMA/UDMA channels, descriptor pools, NAPI, hrtimers, page_pool and XDP program attachment. These are kernel and hardware objects, and kernel pointers appear only as addresses (0 for NULL).
- Classifier register writes (`icssg_class_*`, `icssg_ft1_set_mac_addr`), `prueth_iep_gettime`, the stats work, devlink, notifiers and firmware loading. These are I/O and registration glue.
- The concrete values of `XDP_PACKET_HEADROOM`, `NET_SKB_PAD`, `NET_IP_ALIGN`, `sizeof(long)` and `EINVAL`. They are defined outside this header and are parameters here.
- Headroom.PruethHeadroom: sizes are unbounded naturals, so the C `int` overflow of `x + a - 1` is not modelled. It cannot happen for real headroom values.
- XdpVerdict.Encode: any combination of outcome bits is admitted. The header defines the bits but no rule on which combinations a buffer may carry.
- Handshake.EncodeFlags: any combination of BUSY, DONE and CANCEL is admitted. The header defines the bits but no rule that a command word carries only one of them.
