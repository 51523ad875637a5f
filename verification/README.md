# A verified model of an 802.11 DCF MAC with rate adaptation

This project models the MAC layer of a software-defined-radio 802.11 link
in Dafny: the DCF state machine with RTS/CTS, positive acknowledgement,
bounded retransmission, binary exponential backoff, fragmentation and
beaconing (`wifi_mac/mac_wifi.py`, and the same loop in `wifi_mac/mac.py`);
the frame library it builds and parses frames with
(`wifi_mac/uwicore_mac_utils.py`); the PHY side that files received frames
into per-kind queues and answers the MAC's polls (`wifi_mac/phy_wifi.py`);
and the Minstrel and AARF rate controllers (`wifi_mac/RateAdapt.py`).

Files:

- `wrappers.dfy` (`Wrappers`): `Option` and `Result`.
- `mac_utils.dfy` (`MacUtils`): frames as byte sequences. It covers
  - `parse_mac` and `generate_pkt` with the per-type builders;
  - the sequence-control, duration, timestamp and beacon-interval fields;
  - OFDM airtime;
  - `retry`, `assign_mac` and `update_nav`.
- `mac_utils_proofs.dfy` (`MacUtilsProofs`): the round trips from builders
  to parser, the frame-length limit, sequence-number cycling, monotonicity
  of airtime, injectivity of addresses, and the NAV draining to zero or below.
- `rate_adapt.dfy` (`RateAdapt`): the two controllers as classes whose
  methods update their tables in place.
- `dcf.dfy` (`Dcf`): the configuration checks, fragmentation, and the MAC
  loop as class `MacFsm`.
  - One call of `Step` is one pass of the `while True` loop.
  - The pass gets a `Poll` value: what the PHY and upper-layer polls
    returned, the channel samples, the elapsed time a NAV update sees,
    whether the current wait has expired, and the clock.
  - Frames sent, payloads handed up, buffer removals and rate-controller
    calls are appended to a ghost `trace`.
  - `Valid` holds the loop invariant: the retry budget, a beacon pending
    only in TRANSMITTING_RTS, and a fragment at hand whenever the
    fragment path sends.
- `phy_routing.dfy` (`PhyRouting`): the PHY's receive loop and TAIL
  handler as class `PhyQueues`. It holds the data, ack, rts and cts
  queues, the neighbour (beacon) list and a count of the frames filed for
  other nodes.

Behaviour of the code that the model keeps as written:

- **The RTS threshold never applies.** In TRANSMITTING_RTS the test
  `PAYLOAD > RTS_THRESHOLD` compares a string with an integer, which is
  always true in Python 2. So with RTS enabled every payload goes through
  RTS/CTS, whatever its length.
- **Fragmented frames are never reassembled.** `parse_mac` stores the
  fragment number under the key "MF", so the more-fragments test sees the
  fragment number.
  - The sender numbers the fragments of a run on from `N_FRAG`, and builds
    the last one before it resets `N_FRAG` to 0
    (wifi_mac/mac_wifi.py:549-561). Starting from 0, only the first
    fragment (and every 16th after it) has "MF" 0: the sequence-control
    field keeps only the low four bits of the fragment number
    (wifi_mac/uwicore_mac_utils.py:522).
  - `N_FRAG` does not always start from 0. When WAIT_ACK_FRAGMENTED times
    out, the payload is dropped but `N_FRAG` keeps its incremented value
    (wifi_mac/mac_wifi.py:599-603). The next run then numbers on from it,
    and so does the next unicast DATA frame (wifi_mac/mac_wifi.py:441-442).
    A receiver in WAITING_FOR_DATA takes such a DATA frame for a fragment:
    it acknowledges the frame and appends its payload to `data_temp_reass`
    instead of handing it up (wifi_mac/mac_wifi.py:770-781).
  - A receiver that is not inside a run hands a frame with "MF" 0 up on
    its own as a whole payload (wifi_mac/mac_wifi.py:732-741).
  - The other fragments either arrive in IDLE and are handed up one by one
    as plain DATA, or arrive in WAITING_FOR_DATA and are appended to
    `data_temp_reass`, which is never handed up and never cleared.
  - The end-of-run check compares `N_FRAG + 1` with the incremented
    fragment count. A frame with "MF" 0 inside a run has fragment number 0
    while the count is at least 2, so the check always fails
    (`Dcf.MacFsm.EndFragmentRun`). The machine then stays in
    WAITING_FOR_DATA until the data timer expires
    (wifi_mac/mac_wifi.py:762-798).
  - Nothing clears the run flag `fragmenting` when the data timer expires
    (wifi_mac/mac_wifi.py:790-798), so a run stays open after a timeout.
  - So a fragmented payload is never handed up as one payload. A piece is
    handed up on its own when it arrives in IDLE, or in WAITING_FOR_DATA
    with "MF" 0 outside a run (as the first fragment after RTS/CTS does).
    A piece with non-zero "MF" received in WAITING_FOR_DATA is only
    appended to `data_temp_reass`, and an "MF" 0 piece inside a run is
    dropped without an ACK; neither is ever handed up.
- **An overheard CTS in IDLE kills the MAC process.** The IDLE branch
  formats `cts_pkt["txtime"]`, a key parsed frames do not have. The
  resulting KeyError ends the process, modelled by the `halted` flag.
  After that `Step` changes nothing.
- **A large payload kills the MAC process when RTS is enabled.** The
  probe DATA frame that TRANSMITTING_RTS builds for a payload longer than
  2276 bytes raises ValueError. This too is modelled by `halted`.
- **A frame parse_mac cannot read kills the PHY receive thread.** An
  out-of-range index raises IndexError; the model sets `dead`, and later
  frames are not filed.
- **DATA_RETX frames are built and parsed as plain DATA.** They have the
  same bytes, and the PHY's receive loop skips a DATA_RETX header.
- **The history success percentage weights both terms by 75.** The
  blend of the old history and the window just closed multiplies each by
  75 (wifi_mac/RateAdapt.py:127-129, `RateAdapt.UpdateRow`).
- **The Minstrel packet counter cannot be reset.** Past 60000 packets the
  code assigns an integer to a list slice, which raises TypeError
  (wifi_mac/RateAdapt.py:83-87). That happens in the WAITING_FOR_ACK
  call of `data_sel` with the counter at 60000, and it ends the MAC
  process: `Dcf.MacFsm.AdaptRate` sets `halted` there instead of calling
  the controller. Passes that make no call run on as before.

## Model

| member | source | states |
|---|---|---|
| MacUtils.HeaderNamed | wifi_mac/uwicore_mac_utils.py:159-174 | a frame name is accepted exactly when it is one of the seven types generate_pkt knows |
| MacUtils.ParseMac | wifi_mac/uwicore_mac_utils.py:78-147 | fails exactly on frames too short for the fields their type reads; unknown type bytes give an empty header; DATA-family frames carry bytes 24.. as payload, a sequence number below 4096, a fragment number below 16, and "MF" equal to that fragment number; each header comes with its own field set |
| MacUtils.NextSeqNum | wifi_mac/uwicore_mac_utils.py:511-515 | the successor below 4095, and 0 after 4095 |
| MacUtils.SeqControl | wifi_mac/uwicore_mac_utils.py:518-522 | two bytes from which the parser reads the sequence number mod 4096 and the fragment number mod 16 |
| MacUtils.DurationField | wifi_mac/uwicore_mac_utils.py:567-568 | two bytes, high byte first, so that the parser's little-endian read gives the byte-swapped airtime mod 2^16 |
| MacUtils.TimestampField | wifi_mac/uwicore_mac_utils.py:538-546 | eight bytes; MacUtilsProofs.LittleEndianRoundTrip shows that they decode to the time mod 2^64 |
| MacUtils.BeaconIntervalField | wifi_mac/uwicore_mac_utils.py:525-535 | 0xffff above 67108 s; otherwise the interval in 1024 µs units plus one, little-endian, mod 2^16 |
| MacUtils.NumSymbols | wifi_mac/uwicore_mac_utils.py:559-562 | the least number of OFDM symbols whose data bits cover 54 + 8·len bits |
| MacUtilsProofs.TxTimeFloor | wifi_mac/uwicore_mac_utils.py:549-570 | the airtime is 2 µs more than the largest whole number of microseconds within the (5 + N_sym) symbol times, so it is exact to under a microsecond |
| MacUtilsProofs.DataControlBits | wifi_mac/uwicore_mac_utils.py:451 | the more-fragments bit (0x04) is set exactly for a fragment; the retry bit (0x08) only for a retransmitted fragment, since the conditional expression binds loosest; no other bit is set |
| MacUtils.MakeData | wifi_mac/uwicore_mac_utils.py:441-470 | 24 + payload bytes with 6-byte addresses; airtime of that length; the control bytes; MF 1 exactly for a fragment |
| MacUtils.MakeReservation | wifi_mac/uwicore_mac_utils.py:359-415 | RTS/CTS control frame with the receiver (and, for RTS, transmitter) address; its time is the frame's airtime plus the reservation plus one |
| MacUtils.MakeAck | wifi_mac/uwicore_mac_utils.py:418-438 | bytes d4 00 00 00 followed by the receiver address; airtime of those bytes |
| MacUtils.MakeBeacon | wifi_mac/uwicore_mac_utils.py:327-356 | 30 + |SA| bytes, MF 0, broadcast DA, the given SA, timestamp now + 1 |
| MacUtils.MakeFrame | wifi_mac/uwicore_mac_utils.py:159-174 | the builders fail only on a missing key or an encoding outside 0..7 |
| MacUtils.GeneratePkt | wifi_mac/uwicore_mac_utils.py:149-185 | an invalid-type error exactly for unknown names; a result carries the header and encoding, has its encoding in 0..7 and fits 2304 bytes with the FCS; each error kind has its cause |
| MacUtils.AssignMac | wifi_mac/uwicore_mac_utils.py:200-206 | defined exactly for nodes 0..255; prefix 00:50:c2:85:33 with the node as the last byte |
| MacUtils.Retry | wifi_mac/uwicore_mac_utils.py:188-197 | CW_min on the first attempt; after that it fails exactly when CW_min > 1023 (an empty randint range) and otherwise draws in [CW_min, min(1023, CW_min·2^count)] |
| MacUtils.UpdateNav | wifi_mac/uwicore_mac_utils.py:254-266 | a zero NAV stays zero; the result is never in (0, slot]; a non-zero result is the NAV minus the elapsed time; zero exactly when the NAV was zero or drained into the last slot |
| MacUtilsProofs.DataRoundTrip | wifi_mac/uwicore_mac_utils.py:441-470 | parsing a generated DATA, DATA_FRAG or DATA_RETX frame gives back its addresses, payload, sequence number mod 4096 and fragment number mod 16, under header DATA or DATA_FRAG |
| MacUtilsProofs.DataLayout | wifi_mac/uwicore_mac_utils.py:128-145 | how the parser reads a DATA-family byte layout |
| MacUtilsProofs.RetxFrameEqualsData | wifi_mac/uwicore_mac_utils.py:451 | a DATA_RETX frame has exactly the bytes of the DATA frame for the same request |
| MacUtilsProofs.RtsRoundTrip | wifi_mac/uwicore_mac_utils.py:388-415 | parsing a generated RTS gives back both addresses and the byte-swapped duration |
| MacUtilsProofs.ReservationLayout | wifi_mac/uwicore_mac_utils.py:109-121 | how the parser reads an RTS or CTS byte layout |
| MacUtilsProofs.CtsRoundTrip | wifi_mac/uwicore_mac_utils.py:359-385 | parsing a generated CTS gives back the receiver address and the byte-swapped duration |
| MacUtilsProofs.AckRoundTrip | wifi_mac/uwicore_mac_utils.py:418-438 | parsing a generated ACK gives back the receiver address and a zero duration |
| MacUtilsProofs.LittleEndianRoundTrip | wifi_mac/uwicore_mac_utils.py:538-546 | the n-byte little-endian encoding decodes to the value mod 256^n |
| MacUtilsProofs.BeaconRoundTrip | wifi_mac/uwicore_mac_utils.py:327-356 | a generated beacon is 36 bytes; parsing gives back SA, sequence and fragment numbers, the timestamp (now + 1) mod 2^64 and the interval field |
| MacUtilsProofs.BeaconLayout | wifi_mac/uwicore_mac_utils.py:90-108 | how the parser reads a beacon byte layout |
| MacUtilsProofs.DataLengthLimit | wifi_mac/uwicore_mac_utils.py:176-181 | a DATA-family request succeeds exactly when the encoding is in 0..7 and the payload is at most 2276 bytes; a longer payload gives the length error |
| MacUtilsProofs.MissingKeyFirst | wifi_mac/uwicore_mac_utils.py:159-172 | a request without the fields its frame type reads fails with a missing-key error |
| MacUtilsProofs.SeqControlRoundTrip | wifi_mac/uwicore_mac_utils.py:518-522 | sequence numbers below 4096 and fragment numbers below 16 survive the sequence-control field unchanged |
| MacUtilsProofs.SeqAfterIsShift | wifi_mac/uwicore_mac_utils.py:511-515 | k applications of next_seq_num add k mod 4096 |
| MacUtilsProofs.SeqNumbersCycle | wifi_mac/uwicore_mac_utils.py:511-515 | 4096 successive sequence numbers are pairwise distinct, and the 4096th step returns to the start |
| MacUtilsProofs.NumSymbolsMonotoneInLength | wifi_mac/uwicore_mac_utils.py:562 | a longer frame never needs fewer symbols |
| MacUtilsProofs.NumSymbolsAntitoneInRate | wifi_mac/uwicore_mac_utils.py:559-562 | a higher encoding never needs more symbols |
| MacUtilsProofs.TxTimeMonotone | wifi_mac/uwicore_mac_utils.py:549-570 | a longer frame at a lower or equal encoding never takes less airtime |
| MacUtilsProofs.AssignMacInjective | wifi_mac/uwicore_mac_utils.py:200-206 | distinct nodes get distinct addresses |
| MacUtilsProofs.NavDrains | wifi_mac/uwicore_mac_utils.py:254-266 | when each update sees at least a slot pass, the NAV reaches zero or below within NAV updates |
| RateAdapt.FillSampleRow | wifi_mac/RateAdapt.py:52-59 | each row of the sample table is a permutation of the rate indices |
| RateAdapt.SampleRowEntries | wifi_mac/RateAdapt.py:52-59 | every entry of a sample row is a rate index, and every rate index occurs in it |
| RateAdapt.PlaceRate | wifi_mac/RateAdapt.py:54-59 | placing rate i at the first empty slot from a random start keeps the row a partial permutation of 0..i plus empty slots |
| RateAdapt.FindEmptySlot | wifi_mac/RateAdapt.py:56-58 | the probe loop stops on an empty (0xff) slot |
| RateAdapt.Percent | wifi_mac/RateAdapt.py:121-122 | the success percentage, rounded down and at most 100 |
| RateAdapt.Throughput | wifi_mac/RateAdapt.py:139-143 | either zero or the percentage times the Mbps; zero exactly when success is below 10 percent or the rate is 0 Mbps; never above 100 times the Mbps |
| RateAdapt.ThroughputMonotone | wifi_mac/RateAdapt.py:139-143 | a rate at least as fast and at least as reliable never scores lower |
| RateAdapt.UpdateRow | wifi_mac/RateAdapt.py:117-143 | counts the attempt (and success); recomputes percentage and throughput; at the retry ceiling folds the window into the history, which keeps the attempt total; the line invariant is kept |
| RateAdapt.NextSampleCursor | wifi_mac/RateAdapt.py:97-106 | the sample cursor moves one cell forward through the 10×n table, wrapping at the end |
| RateAdapt.MinstrelController.constructor | wifi_mac/RateAdapt.py:12-75 | the parameters; zeroed counters; one statistics line per rate; a sample table whose rows are permutations |
| RateAdapt.MinstrelController.SortRate | wifi_mac/RateAdapt.py:147-158 | the lowest index of maximal throughput |
| RateAdapt.MinstrelController.Update | wifi_mac/RateAdapt.py:76-145 | counts the packet; uses the sample-table rate when the sampling quota allows, and then advances the cursor; updates that rate's line; returns the best rate |
| RateAdapt.MinstrelController.CountPacket | wifi_mac/RateAdapt.py:79-106 | the packet count, the sampling decision and the cursor move of one call |
| RateAdapt.MinstrelController.RecordAttempt | wifi_mac/RateAdapt.py:117-143 | only the statistics line of the rate used changes, as UpdateRow says |
| RateAdapt.AarfController.constructor | wifi_mac/RateAdapt.py:208-230 | every rate row starts with zero counts and threshold AARF_N |
| RateAdapt.AarfController.RowBelow | wifi_mac/RateAdapt.py:272 | the row below the current rate, wrapping to the last row at rate 0 as Python's index -1 does |
| RateAdapt.AarfController.Update | wifi_mac/RateAdapt.py:232-284 | each of the six branches: the next rate (hold, +1 capped at the top, or −1 floored at 0) and the new row counters and thresholds (doubling capped at 20) |
| Dcf.LowerAscii | wifi_mac/mac_wifi.py:215 | same length; each character lower-cased if it is an ASCII capital |
| Dcf.LowerAsciiIdempotent | wifi_mac/mac_wifi.py:215 | lower-casing twice is lower-casing once |
| Dcf.SelectRateControl | wifi_mac/mac_wifi.py:215-225 | accepts exactly none, minstrel and aarf in any case; "none" gives no controller, "minstrel" Minstrel exactly when retransmissions are on (otherwise the refusal), "aarf" AARF; any other option is invalid |
| Dcf.SelectRateControlIgnoresCase | wifi_mac/mac_wifi.py:215-216 | the choice depends only on the lower-cased option |
| Dcf.StandaloneAddresses | wifi_mac/mac_wifi.py:115-116 | own and next-node addresses exist exactly for nodes 0..254 and are distinct |
| Dcf.ConfiguredAddresses | wifi_mac/mac.py:48-50 | a node set as its own destination is refused; otherwise distinct addresses for nodes in 0..255 |
| Dcf.Fragment | wifi_mac/mac_wifi.py:526-527 | the pieces concatenate to the payload; all are non-empty, none is longer than the threshold, and all but the last are full; a payload over the threshold gives at least two pieces |
| Dcf.SenseForDifs | wifi_mac/mac_wifi.py:315-325 | the channel is busy exactly when one of the two samples is occupied |
| Dcf.MacFsm.constructor | wifi_mac/mac_wifi.py:167-225 | the loop's initial variables and the configured controller |
| Dcf.MacFsm.Step | wifi_mac/mac_wifi.py:227-819 | keeps the loop invariant; a halted process does nothing; the trace only grows |
| Dcf.MacFsm.StepContending | wifi_mac/mac_wifi.py:228-368 | the channel-access states keep the invariant |
| Dcf.MacFsm.StepSending | wifi_mac/mac_wifi.py:370-604 | the sending states keep the invariant |
| Dcf.MacFsm.StepWaitingForAck | wifi_mac/mac_wifi.py:605-682 | keeps the invariant; nothing changes while no ACK came and the timer runs |
| Dcf.MacFsm.StepAnswering | wifi_mac/mac_wifi.py:684-818 | the answering states keep the invariant |
| Dcf.MacFsm.StepIdle | wifi_mac/mac_wifi.py:228-296 | by poll priority: an RTS for this node leads to TRANSMITTING_CTS towards its sender; another node's RTS updates the NAV; DATA is handed up and acknowledged; upper-layer data goes to WAIT_FOR_NAV and a beacon to TRANSMITTING_RTS; otherwise a pending CTS halts the process |
| Dcf.MacFsm.IdleOnRts | wifi_mac/mac_wifi.py:229-259 | the RTS half of StepIdle |
| Dcf.MacFsm.IdleOnData | wifi_mac/mac_wifi.py:261-272 | the DATA half: payload handed up, ACK address set, TRANSMITTING_ACK |
| Dcf.MacFsm.IdleReadBuffer | wifi_mac/mac_wifi.py:273-292 | the upper-layer half, including the overheard-CTS KeyError |
| Dcf.MacFsm.StepWaitForNav | wifi_mac/mac_wifi.py:298-305 | the NAV is updated; the state stays while it is positive and moves to WAIT_FOR_DIFS once it is zero or below |
| Dcf.MacFsm.StepWaitForDifs | wifi_mac/mac_wifi.py:309-342 | idle channel: BACKING_OFF, with a zero counter unless frozen or after a CTS failure; busy channel: IDLE, with a fresh retry() draw and one more attempt unless frozen or after a CTS failure |
| Dcf.MacFsm.DrawBackoff | wifi_mac/uwicore_mac_utils.py:188-197 | the counter is within retry()'s bounds |
| Dcf.MacFsm.StepBackingOff | wifi_mac/mac_wifi.py:344-368 | a zero counter transmits; otherwise it counts down one slot, transmits at zero on an idle channel, and freezes and goes to IDLE on a busy one |
| Dcf.MacFsm.ProbeFails | wifi_mac/mac_wifi.py:389-393 | building the probe DATA frame for the payload, from this node to the destination, raises exactly for payloads over 2276 bytes |
| Dcf.MacFsm.SendBeacon | wifi_mac/mac_wifi.py:372-387 | the beacon goes out and leaves the buffer; the sequence number advances; back to IDLE |
| Dcf.MacFsm.StepTransmittingRts | wifi_mac/mac_wifi.py:370-428 | with RTS enabled: halts exactly when the probe raises, otherwise sends the RTS and waits for CTS; without RTS: TRANSMITTING_UNICAST. A first attempt resets the retry budget |
| Dcf.MacFsm.StartAttempt | wifi_mac/mac_wifi.py:389-428 | the non-halting part of StepTransmittingRts |
| Dcf.MacFsm.BeginAttempt | wifi_mac/mac_wifi.py:396-399 | first_tx resets the retries to retx_max and clears fail_tx |
| Dcf.MacFsm.StepTransmittingUnicast | wifi_mac/mac_wifi.py:429-463 | long payloads go to the fragment path; others are sent as DATA (DATA_RETX exactly when a send was already made), then wait for the ACK with the next sequence number |
| Dcf.MacFsm.AwaitAck | wifi_mac/mac_wifi.py:443-462 | WAITING_FOR_ACK with one more send counted |
| Dcf.MacFsm.StepWaitingForCts | wifi_mac/mac_wifi.py:465-523 | a CTS for this node leads to TRANSMITTING_UNICAST and clears the attempts; another node's CTS updates the NAV and goes to IDLE; on expiry one more attempt is counted, a retry() draw is made and the CTS failure is marked |
| Dcf.MacFsm.StepTransmittingFragmentedPacket | wifi_mac/mac_wifi.py:524-564 | the first pass splits the payload; later passes send the head fragment as DATA_FRAG, or the last one as DATA, with the sequence and fragment numbers |
| Dcf.MacFsm.SendFragment | wifi_mac/mac_wifi.py:531-564 | the send half of the fragment path |
| Dcf.MacFsm.AwaitFragmentAck | wifi_mac/mac_wifi.py:537-564 | the fragment list, fragment number and last-fragment flag after a send |
| Dcf.MacFsm.StepWaitAckFragmented | wifi_mac/mac_wifi.py:566-603 | an ACK for the last fragment removes the payload and goes to IDLE; an earlier ACK sends the next fragment; expiry removes the payload |
| Dcf.MacFsm.AdaptRate | wifi_mac/mac_wifi.py:679-682 | without a controller the rate stays; Minstrel gives a best-throughput rate, or halts the process when its counter is at 60000; AARF moves at most one step, up on success and down on failure |
| Dcf.MacFsm.AdaptMinstrel | wifi_mac/mac_wifi.py:679-682 | the Minstrel half of AdaptRate |
| Dcf.MacFsm.SetRate | wifi_mac/mac_wifi.py:681 | the returned rate becomes the encoding, and the call is recorded |
| Dcf.MacFsm.AdaptAarf | wifi_mac/mac_wifi.py:679-682 | the AARF half of AdaptRate |
| Dcf.MacFsm.OnAck | wifi_mac/mac_wifi.py:610-648 | an ACK removes the payload, clears the backoff, sets first_tx, goes to IDLE and reports success to the controller; the process halts exactly when Minstrel's counter is full |
| Dcf.MacFsm.FinishPayload | wifi_mac/mac_wifi.py:626-632 | the bookkeeping of OnAck: IDLE, backoff 0, payload removed, first_tx set |
| Dcf.MacFsm.OnAckTimeout | wifi_mac/mac_wifi.py:650-682 | a retry is spent, or the payload is dropped when none is left or retransmission is off; failure is reported, and the process halts exactly when Minstrel's counter is full; a payload is dropped exactly after retx_max + 1 sends |
| Dcf.MacFsm.SpendRetry | wifi_mac/mac_wifi.py:655-677 | the retry bookkeeping of OnAckTimeout |
| Dcf.MacFsm.StepTransmittingCts | wifi_mac/mac_wifi.py:684-705 | the NAV is updated; once it is zero or below the CTS goes to the RTS sender and the node waits for DATA |
| Dcf.MacFsm.StepWaitingForData | wifi_mac/mac_wifi.py:707-798 | a whole frame is handed up and acknowledged; a fragment joins the buffer and is acknowledged; the end of a run can never match; otherwise the node waits until the timer expires |
| Dcf.MacFsm.ReceiveWhole | wifi_mac/mac_wifi.py:731-742 | the delivery half of StepWaitingForData |
| Dcf.MacFsm.EndFragmentRun | wifi_mac/mac_wifi.py:743-769 | the reassembly check fails for every end of run |
| Dcf.MacFsm.ReceiveFragment | wifi_mac/mac_wifi.py:770-781 | the fragment half: the payload is appended to the buffer, then TX_ACK_FG |
| Dcf.MacFsm.StepTxAckFg | wifi_mac/mac_wifi.py:800-808 | the fragment is acknowledged by an ACK of duration 0 to its sender at the control rate; back to WAITING_FOR_DATA |
| Dcf.MacFsm.StepTransmittingAck | wifi_mac/mac_wifi.py:810-818 | the frame is acknowledged by an ACK of duration 0 to its sender at the control rate; back to IDLE |
| PhyRouting.Route | wifi_mac/phy_wifi.py:505-543 | DATA and DATA_FRAG to this node go to data, others to other; an ACK is kept only for this node; RTS and CTS always; beacons to the neighbour list; everything else is skipped (each case an if-and-only-if) |
| PhyRouting.FirstWithMac | wifi_mac/phy_wifi.py:529-537 | where the update loop stops: the first entry with the beacon's address, or the end |
| PhyRouting.BeaconUpdateContents | wifi_mac/phy_wifi.py:525-541 | the new entry ends up last; it replaces the old entry for that address, or is added when there is none |
| PhyRouting.BeaconUpdateOnePerMac | wifi_mac/phy_wifi.py:525-541 | the list keeps at most one entry per address, and the entry for the beacon's address is the new one |
| PhyRouting.KindNamed | wifi_mac/phy_wifi.py:690-712 | "DATA", "ACK", "RTS" and "CTS" name their queues, "NODE" and "SAMP_RATE" their values, each exactly; every other request is answered NO |
| PhyRouting.PhyQueues.constructor | wifi_mac/phy_wifi.py:481-486 | empty queues and neighbour list for the given address, node and sample rate |
| PhyRouting.PhyQueues.Receive | wifi_mac/phy_wifi.py:496-543 | an unparsable frame kills the thread; otherwise the parsed frame is filed as Route says |
| PhyRouting.PhyQueues.File | wifi_mac/phy_wifi.py:505-543 | exactly one queue or the neighbour list changes, as Route says |
| PhyRouting.PhyQueues.Enqueue | wifi_mac/phy_wifi.py:505-516 | the routed frame is appended to its queue only |
| PhyRouting.PhyQueues.UpdateBeacons | wifi_mac/phy_wifi.py:525-541 | the rotating get/put loop leaves the list as BeaconListUpdate says |
| PhyRouting.PhyQueues.RotateBeacons | wifi_mac/phy_wifi.py:558-574 | a full rotation of the list leaves it unchanged |
| PhyRouting.PhyQueues.Tail | wifi_mac/phy_wifi.py:686-715 | DATA, ACK, RTS and CTS take the head of their own queue, or answer NO when it is empty; NODE and SAMP_RATE give the values; anything else is NO; only the named queue changes and every frame returned has the requested kind |
| PhyRouting.ParsedKinds | wifi_mac/uwicore_mac_utils.py:90-146 | every parsed header comes with its own field set |
| PhyRouting.RepliesMakeWellFormedPoll | wifi_mac/phy_wifi.py:686-705 | frames the TAIL handler returns make a well-formed poll for the MAC loop |
| PhyRouting.DataFrameRouting | wifi_mac/phy_wifi.py:505-509 | a generated DATA or DATA_FRAG frame goes to data exactly when it is addressed here, with its payload intact; a DATA_RETX frame parses as DATA |
| PhyRouting.AckFrameRouting | wifi_mac/phy_wifi.py:510-512 | a generated ACK is kept exactly when it is addressed here |
| PhyRouting.BeaconFrameRouting | wifi_mac/phy_wifi.py:517-524 | a generated beacon is routed to the neighbour list and parses back with the sender's address and the timestamp it was sent with |

## Left out

- Sockets, the upper-layer buffer process and the PHY transceiver
  (`wifi_transceiver`, the CCA handler and the GNU Radio flow graph) are
  not modelled. Their answers are inputs (`Poll`, `Receive`'s bytes) and
  their effects are events in the trace.
- The PHY's two threads share their queues. Each `Receive` and `Tail` is
  one atomic step; no interleaving inside a step is modelled.
- Clocks, sleeps and float time are not modelled. Time is an integer
  input:
  - the symbol time is in nanoseconds and the beacon interval in
    microseconds;
  - the wait timers are the `timerExpired` flag;
  - the timing-error asserts are not modelled.
- Randomness is not modelled: `random.randint` becomes a nondeterministic
  choice, in `Retry` and in the sample-table fill.
- Printing, logging, the GUI, statistics counters and `format_mac` are not
  modelled.
- The frames filed for other nodes are kept only as a count: the code
  stores a fixed string for each.
- `uwicore_mac_utils` (imported as `mac`) defines no `fragment`.
  `Dcf.Fragment` stands for the split the call is used for: consecutive
  pieces of the threshold size.
- RateAdapt.UpdateRow: the percentages and the 75/75 history blend are
  computed on exact rationals rounded down. The float arithmetic could
  differ at the last bit.
- RateAdapt.MinstrelController.Update: calls with 60000 packets or more
  are excluded, since the code raises TypeError there. The MAC loop
  never makes such a call: `Dcf.MacFsm.AdaptRate` halts the process
  instead. The packet that the raising call counts before it raises is
  not counted, because the dead process never reads it.
- Minstrel's `lookaround_tp_rate_table`, `normal_tp_rate_table` and the
  `test`/`show_*` methods are not modelled. Nothing reads them.
- Dcf.MacFsm.Step: the contract states the loop invariant, the halted
  case and trace growth. Each state's effect is stated by the per-state
  method it calls.
- Dcf.MacFsm.StepTransmittingCts: the CTS duration
  (`RTS_duration - 2·T_cts/10 - SIFS`, a float) is not modelled. The event
  carries only the receiver address; the RTS event likewise carries only
  its addresses.
- Dcf.MacFsm.constructor: requires an encoding in 0..7. With rate control
  "minstrel" or "aarf" (the default, wifi_mac/mac_wifi.py:93) this is the
  source's own start-up check: both controllers assert
  `0 <= encoding_init < 8` when they are built
  (wifi_mac/RateAdapt.py:27, wifi_mac/RateAdapt.py:210,
  wifi_mac/mac_wifi.py:219-224). Only with `--rate_control none` is the
  `--encoding` value taken unchecked (wifi_mac/mac_wifi.py:126). The
  table lookup then asserts only when a DATA or BEACON frame is built
  (wifi_mac/mac_wifi.py:379-392, wifi_mac/uwicore_mac_utils.py:557). So
  under `--rate_control none` a node that only receives would run with an
  out-of-range value, and one that sends would stop with an
  AssertionError. The model does not cover either case.
