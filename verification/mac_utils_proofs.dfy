/** What the frame builders and the parser promise about each other, and
    properties of the airtime, backoff and NAV arithmetic. */
module MacUtilsProofs {
  import opened Wrappers
  import opened MacUtils

  // ---------------------------------------------------------------------
  // Round trips: a frame generate_pkt builds is read back by parse_mac
  // ---------------------------------------------------------------------

  /** The header a DATA-family frame is parsed as.  The retransmission flag
      is lost when the frame is built (see DataControlByte), so a DATA_RETX
      frame comes back as DATA. */
  function ParsedDataHeader(h: Header): Header
  {
    if h == DataFrag then DataFrag else Data
  }

  /** A DATA, DATA_FRAG or DATA_RETX frame with six-byte addresses parses
      back to its addresses, sequence and fragment numbers and payload; the
      duration read back is the airtime with its two bytes exchanged. */
  lemma {:induction false} DataRoundTrip(name: string, tSymNs: nat, encoding: int, payload: bytes, da: bytes,
                                         sa: bytes, nSeq: nat, nFrag: nat, ts: int, now: nat)
    requires name in {"DATA", "DATA_FRAG", "DATA_RETX"}
    requires |da| == 6 && |sa| == 6
    requires GeneratePkt(name, tSymNs, encoding, DataRequest(payload, da, sa, nSeq, nFrag, ts), now).Ok?
    ensures var g := GeneratePkt(name, tSymNs, encoding, DataRequest(payload, da, sa, nSeq, nFrag, ts), now).value;
            ParseMac(g.info.packet)
            == Ok(Parsed(ParsedDataHeader(g.header),
                         DataInfo(g.info.packet, Swap16(g.info.txTime % 65536), da, sa, nSeq % 4096, nFrag % 16,
                                  nFrag % 16, payload)))
  {
    var g := GeneratePkt(name, tSymNs, encoding, DataRequest(payload, da, sa, nSeq, nFrag, ts), now).value;
    var h := g.header;
    var f := MakeData(payload, da, sa, nSeq, nFrag, ts, encoding, tSymNs, h == DataRetx, h == DataFrag);
    assert g.info == f;
    var c := DataControlByte(h == DataRetx, h == DataFrag);
    assert DataHeader(c) == ParsedDataHeader(h);
    DataLayout(f.packet, c, DurationField(f.txTime), da, sa, SeqControl(nSeq, nFrag), payload);
  }

  /** Where the fields of a DATA-family frame sit, and what parse_mac reads
      from them. */
  lemma DataLayout(pkt: bytes, c: byte, dur: bytes, da: bytes, sa: bytes, sc: bytes, payload: bytes)
    requires |dur| == 2 && |da| == 6 && |sa| == 6 && |sc| == 2 && c in {0x00, 0x04, 0x08}
    requires pkt == [0x08, c] + dur + da + sa + Broadcast + sc + payload
    ensures ParseMac(pkt) == Ok(Parsed(DataHeader(c), DataInfo(pkt, Le16(dur[0], dur[1]), da, sa,
                                                               SeqNumber(sc[0], sc[1]), FragNumber(sc[0]),
                                                               FragNumber(sc[0]), payload)))
  {
    assert pkt[2..4] == dur && pkt[4..10] == da && pkt[10..16] == sa && pkt[22..24] == sc && pkt[24..] == payload;
  }

  /** The second Frame Control byte of a DATA-family frame sets the
      More Fragments bit (0x04) exactly for a fragment and the Retry bit
      (0x08) only for a retransmitted fragment; no other bit is set. */
  lemma DataControlBits(reTx: bool, frag: bool)
    ensures var b := DataControlByte(reTx, frag) as bv8;
            (b & 0x04 != 0 <==> frag) && (b & 0x08 != 0 <==> frag && reTx) && b & 0xf3 == 0
  {
  }

  /** As the code is written, DATA_RETX builds exactly the bytes DATA builds. */
  lemma RetxFrameEqualsData(tSymNs: nat, encoding: int, req: Request, now: nat)
    requires GeneratePkt("DATA", tSymNs, encoding, req, now).Ok?
    ensures GeneratePkt("DATA_RETX", tSymNs, encoding, req, now).Ok?
    ensures GeneratePkt("DATA_RETX", tSymNs, encoding, req, now).value.info.packet
            == GeneratePkt("DATA", tSymNs, encoding, req, now).value.info.packet
  {
  }

  /** An RTS with six-byte addresses parses back to its two addresses and its
      duration field. */
  lemma {:induction false} RtsRoundTrip(tSymNs: nat, encoding: int, duration: nat, ra: bytes, ta: bytes, ts: int,
                                        now: nat)
    requires |ra| == 6 && |ta| == 6
    requires GeneratePkt("RTS", tSymNs, encoding, ControlRequest(duration, ra, Some(ta), ts), now).Ok?
    ensures var g := GeneratePkt("RTS", tSymNs, encoding, ControlRequest(duration, ra, Some(ta), ts), now).value;
            ParseMac(g.info.packet) == Ok(Parsed(Rts, RtsInfo(g.info.packet, Swap16(g.info.txTime % 65536), ra, ta)))
  {
    var f := MakeReservation(0xb4, duration, ra, Some(ta), ts, encoding, tSymNs);
    assert GeneratePkt("RTS", tSymNs, encoding, ControlRequest(duration, ra, Some(ta), ts), now).value.info == f;
    ReservationLayout(f.packet, 0xb4, DurationField(f.txTime), ra, ta);
  }

  /** Where the fields of an RTS or CTS sit, and what parse_mac reads from
      them (for a CTS, ta is empty). */
  lemma ReservationLayout(pkt: bytes, first: byte, dur: bytes, ra: bytes, ta: bytes)
    requires |dur| == 2 && |ra| == 6 && |ta| in {0, 6} && (first == 0xb4 <==> |ta| == 6) && first in {0xb4, 0xc4}
    requires pkt == [first, 0x00] + dur + (ra + ta)
    ensures first == 0xb4 ==> ParseMac(pkt) == Ok(Parsed(Rts, RtsInfo(pkt, Le16(dur[0], dur[1]), ra, ta)))
    ensures first == 0xc4 ==> ParseMac(pkt) == Ok(Parsed(Cts, CtsInfo(pkt, Le16(dur[0], dur[1]), ra)))
  {
    assert pkt[2..4] == dur && pkt[4..10] == ra;
    assert Slice(pkt, 4, 10) == ra;
    if first == 0xb4 {
      assert pkt[10..16] == ta;
      assert Slice(pkt, 10, 16) == ta;
    }
  }

  /** A CTS parses back to its receiver address and duration field. */
  lemma {:induction false} CtsRoundTrip(tSymNs: nat, encoding: int, duration: nat, ra: bytes, ta: Option<bytes>,
                                        ts: int, now: nat)
    requires |ra| == 6
    requires GeneratePkt("CTS", tSymNs, encoding, ControlRequest(duration, ra, ta, ts), now).Ok?
    ensures var g := GeneratePkt("CTS", tSymNs, encoding, ControlRequest(duration, ra, ta, ts), now).value;
            ParseMac(g.info.packet) == Ok(Parsed(Cts, CtsInfo(g.info.packet, Swap16(g.info.txTime % 65536), ra)))
  {
    var f := MakeReservation(0xc4, duration, ra, None, ts, encoding, tSymNs);
    assert GeneratePkt("CTS", tSymNs, encoding, ControlRequest(duration, ra, ta, ts), now).value.info == f;
    assert f.packet == [0xc4, 0x00] + DurationField(f.txTime) + (ra + []);
    ReservationLayout(f.packet, 0xc4, DurationField(f.txTime), ra, []);
  }

  /** An ACK parses back to its receiver address with a zero duration. */
  lemma {:induction false} AckRoundTrip(tSymNs: nat, encoding: int, req: Request, now: nat)
    requires req.ControlRequest? && |req.macRa| == 6
    requires GeneratePkt("ACK", tSymNs, encoding, req, now).Ok?
    ensures var g := GeneratePkt("ACK", tSymNs, encoding, req, now).value;
            ParseMac(g.info.packet) == Ok(Parsed(Ack, AckInfo(g.info.packet, 0, req.macRa)))
  {
    var pkt := GeneratePkt("ACK", tSymNs, encoding, req, now).value.info.packet;
    assert pkt[4..10] == req.macRa;
  }

  /** Bytes written by ToLittleEndian read back as the value modulo 256^n. */
  lemma {:induction false} LittleEndianRoundTrip(x: nat, n: nat)
    ensures LittleEndian(ToLittleEndian(x, n)) == x % Pow256(n)
  {
    if n > 0 {
      var s := ToLittleEndian(x, n);
      assert s[0] == x % 256;
      assert s[1..] == ToLittleEndian(x / 256, n - 1);
      LittleEndianRoundTrip(x / 256, n - 1);
      ModSplitLowByte(x, Pow256(n - 1));
    }
  }

  lemma DivModUnique(x: nat, d: nat, q: nat, r: nat)
    requires d > 0 && x == q * d + r && r < d
    ensures x / d == q && x % d == r
  {
    var q' := x / d;
    var r' := x % d;
    assert x == q' * d + r';
    if q' < q {
      MulMonotone(q' + 1, q, d);
      assert false;
    } else if q < q' {
      MulMonotone(q + 1, q', d);
      assert false;
    }
  }

  /** Splitting off the lowest byte of x modulo 256 * p. */
  lemma ModSplitLowByte(x: nat, p: nat)
    requires p > 0
    ensures x % (256 * p) == 256 * ((x / 256) % p) + x % 256
  {
    var y := x / 256;
    var q := y / p;
    var lo := x % 256;
    assert x == y * 256 + lo;
    assert y == q * p + y % p;
    assert y * 256 == q * (256 * p) + 256 * (y % p);
    assert x == q * (256 * p) + (256 * (y % p) + lo);
    DivModUnique(x, 256 * p, q, 256 * (y % p) + lo);
  }

  /** A beacon with a six-byte source address parses back to its broadcast
      destination, source, sequence and fragment numbers, a timestamp one
      second past the clock (kept to 64 bits), its Beacon Interval field and
      an empty SSID. */
  lemma BeaconRoundTrip(tSymNs: nat, encoding: int, sa: bytes, nSeq: nat, nFrag: nat,
                        biMicros: nat, now: nat)
    requires |sa| == 6
    requires GeneratePkt("BEACON", tSymNs, encoding, BeaconRequest(sa, nSeq, nFrag, biMicros), now).Ok?
    ensures var g := GeneratePkt("BEACON", tSymNs, encoding, BeaconRequest(sa, nSeq, nFrag, biMicros), now).value;
            var bi := BeaconIntervalField(biMicros);
            |g.info.packet| == 36
            && ParseMac(g.info.packet)
               == Ok(Parsed(Beacon, BeaconInfo(g.info.packet, Swap16(g.info.txTime % 65536), Broadcast, sa,
                                               nSeq % 4096, nFrag % 16, nFrag % 16, (now + 1) % Pow256(8),
                                               Le16(bi[0], bi[1]), [])))
  {
    var f := MakeBeacon(sa, nSeq, nFrag, biMicros, now, encoding, tSymNs);
    assert GeneratePkt("BEACON", tSymNs, encoding, BeaconRequest(sa, nSeq, nFrag, biMicros), now).value.info == f;
    BeaconLayout(f.packet, DurationField(f.txTime), sa, SeqControl(nSeq, nFrag), TimestampField(now),
                 BeaconIntervalField(biMicros));
    LittleEndianRoundTrip(now + 1, 8);
  }

  /** Where the fields of a 36-byte beacon sit, and what parse_mac reads from
      them. */
  lemma BeaconLayout(pkt: bytes, dur: bytes, sa: bytes, sc: bytes, ts: bytes, bi: bytes)
    requires |dur| == 2 && |sa| == 6 && |sc| == 2 && |ts| == 8 && |bi| == 2
    requires pkt == [0x80, 0x00] + dur + (Broadcast + sa + Broadcast + sc + ts + bi + [0x00, 0x00])
    ensures |pkt| == 36
    ensures ParseMac(pkt) == Ok(Parsed(Beacon, BeaconInfo(pkt, Le16(dur[0], dur[1]), Broadcast, sa,
                                                          SeqNumber(sc[0], sc[1]), FragNumber(sc[0]),
                                                          FragNumber(sc[0]), LittleEndian(ts),
                                                          Le16(bi[0], bi[1]), [])))
  {
    BeaconFields(pkt);
    BeaconAddressBytes(pkt, dur, sa, sc, ts, bi);
    BeaconBodyBytes(pkt, dur, sa, sc, ts, bi);
  }

  /** The duration and the two addresses parse_mac reads from a beacon. */
  lemma BeaconAddressBytes(pkt: bytes, dur: bytes, sa: bytes, sc: bytes, ts: bytes, bi: bytes)
    requires |dur| == 2 && |sa| == 6 && |sc| == 2 && |ts| == 8 && |bi| == 2
    requires pkt == [0x80, 0x00] + dur + (Broadcast + sa + Broadcast + sc + ts + bi + [0x00, 0x00])
    ensures |pkt| == 36
    ensures pkt[2] == dur[0] && pkt[3] == dur[1] && pkt[4..10] == Broadcast && pkt[10..16] == sa
  {
    assert pkt[4..10] == Broadcast;
    assert pkt[10..16] == sa;
  }

  /** The sequence control, timestamp and interval parse_mac reads from a
      beacon. */
  lemma BeaconBodyBytes(pkt: bytes, dur: bytes, sa: bytes, sc: bytes, ts: bytes, bi: bytes)
    requires |dur| == 2 && |sa| == 6 && |sc| == 2 && |ts| == 8 && |bi| == 2
    requires pkt == [0x80, 0x00] + dur + (Broadcast + sa + Broadcast + sc + ts + bi + [0x00, 0x00])
    ensures pkt[22] == sc[0] && pkt[23] == sc[1] && pkt[24..32] == ts && pkt[32] == bi[0] && pkt[33] == bi[1]
  {
    assert pkt[24..32] == ts;
  }

  /** What parse_mac reads from a 36-byte beacon, by position. */
  lemma BeaconFields(pkt: bytes)
    requires |pkt| == 36 && pkt[0] == 0x80
    ensures ParseMac(pkt) == Ok(Parsed(Beacon, BeaconInfo(pkt, Le16(pkt[2], pkt[3]), pkt[4..10], pkt[10..16],
                                                          SeqNumber(pkt[22], pkt[23]), FragNumber(pkt[22]),
                                                          FragNumber(pkt[22]), LittleEndian(pkt[24..32]),
                                                          Le16(pkt[32], pkt[33]), [])))
  {
  }

  // ---------------------------------------------------------------------
  // Error cases of generate_pkt
  // ---------------------------------------------------------------------

  /** A DATA frame with six-byte addresses is built exactly when the rate
      index is valid and the MPDU with its FCS fits in 2304 bytes, that is
      for payloads of at most 2276 bytes. */
  lemma DataLengthLimit(name: string, tSymNs: nat, encoding: int, req: Request, now: nat)
    requires name in {"DATA", "DATA_FRAG", "DATA_RETX"}
    requires req.DataRequest? && |req.address1| == 6 && |req.address2| == 6
    ensures GeneratePkt(name, tSymNs, encoding, req, now).Ok? <==> 0 <= encoding < 8 && |req.payload| <= 2276
    ensures 0 <= encoding < 8 && |req.payload| > 2276 ==>
              GeneratePkt(name, tSymNs, encoding, req, now) == Err(FrameTooLong)
  {
  }

  /** A dictionary without the keys the frame kind reads raises KeyError
      before anything else is checked. */
  lemma MissingKeyFirst(name: string, tSymNs: nat, encoding: int, req: Request, now: nat)
    requires HeaderNamed(name).Some?
    requires (name in {"DATA", "DATA_FRAG", "DATA_RETX"} && !req.DataRequest?)
             || (name == "BEACON" && !req.BeaconRequest?)
             || (name in {"CTS", "ACK"} && !req.ControlRequest?)
             || (name == "RTS" && !(req.ControlRequest? && req.macTa.Some?))
    ensures GeneratePkt(name, tSymNs, encoding, req, now) == Err(MissingKey)
  {
  }

  // ---------------------------------------------------------------------
  // Sequence control and the duration field
  // ---------------------------------------------------------------------

  /** Sequence and fragment numbers in range survive the Sequence Control
      encoding unchanged. */
  lemma SeqControlRoundTrip(nSeq: nat, nFrag: nat)
    requires nSeq < 4096 && nFrag < 16
    ensures var sc := SeqControl(nSeq, nFrag);
            SeqNumber(sc[0], sc[1]) == nSeq && FragNumber(sc[0]) == nFrag
  {
  }

  /** Exchanging the two bytes twice gives the value back, so the duration a
      receiver reads equals the one written only when both bytes agree. */
  lemma Swap16Involution(w: nat)
    requires w < 65536
    ensures Swap16(Swap16(w)) == w
    ensures Swap16(w) == w <==> w / 256 == w % 256
  {
    var s := Swap16(w);
    assert s == w / 256 + (w % 256) * 256;
  }

  /** Starting anywhere in [0, 4095], 4096 successive sequence numbers are
      all different and the next one is the start again. */
  function SeqAfter(n: nat, k: nat): (r: nat)
    requires n < 4096
    ensures r < 4096
  {
    if k == 0 then n else NextSeqNum(SeqAfter(n, k - 1))
  }

  lemma {:induction false} SeqAfterIsShift(n: nat, k: nat)
    requires n < 4096
    ensures SeqAfter(n, k) == (n + k) % 4096
  {
    if k == 0 {
      DivMod4096(n, 0, n);
    } else {
      SeqAfterIsShift(n, k - 1);
      assert SeqAfter(n, k) == NextSeqNum(SeqAfter(n, k - 1));
      ModStep4096(n + k - 1);
    }
  }

  /** Counting one further modulo 4096 is NextSeqNum of the remainder. */
  lemma ModStep4096(x: nat)
    ensures (x + 1) % 4096 == NextSeqNum(x % 4096)
  {
    var m := x % 4096;
    var q := x / 4096;
    if m < 4095 {
      DivMod4096(x + 1, q, m + 1);
    } else {
      DivMod4096(x + 1, q + 1, 0);
    }
  }

  lemma SeqNumbersCycle(n: nat, i: nat, j: nat)
    requires n < 4096 && i < j <= 4096
    ensures j < 4096 ==> SeqAfter(n, i) != SeqAfter(n, j)
    ensures j == 4096 ==> SeqAfter(n, j) == n
  {
    SeqAfterIsShift(n, i);
    SeqAfterIsShift(n, j);
    if j == 4096 {
      DivMod4096(n + j, 1, n);
    }
  }

  // ---------------------------------------------------------------------
  // Airtime
  // ---------------------------------------------------------------------

  lemma MulMonotone(a: nat, b: nat, c: nat)
    requires a <= b
    ensures a * c <= b * c
  {
  }

  /** A longer frame never needs fewer symbols. */
  lemma NumSymbolsMonotoneInLength(len1: nat, len2: nat, encoding: nat)
    requires encoding < 8 && len1 <= len2
    ensures NumSymbols(len1, encoding) <= NumSymbols(len2, encoding)
  {
    var d := DataBitsPerSymbol(encoding);
    var n1 := NumSymbols(len1, encoding);
    var n2 := NumSymbols(len2, encoding);
    if n1 > n2 {
      MulMonotone(n2, n1 - 1, d);
      assert false;
    }
  }

  /** A faster rate (larger index) never needs more symbols. */
  lemma NumSymbolsAntitoneInRate(len: nat, e1: nat, e2: nat)
    requires e1 <= e2 < 8
    ensures NumSymbols(len, e2) <= NumSymbols(len, e1)
  {
    var d1 := DataBitsPerSymbol(e1);
    var d2 := DataBitsPerSymbol(e2);
    assert d1 <= d2;
    var n1 := NumSymbols(len, e1);
    var n2 := NumSymbols(len, e2);
    MulMonotone(d1, d2, n1);
    assert n1 * d2 >= 54 + 8 * len;
    if n2 > n1 {
      MulMonotone(n1, n2 - 1, d2);
      assert false;
    }
  }

  lemma DivMonotone(a: nat, b: nat, d: nat)
    requires a <= b && d > 0
    ensures a / d <= b / d
  {
    if a / d > b / d {
      assert a == (a / d) * d + a % d;
      assert b == (b / d) * d + b % d;
      MulMonotone(b / d + 1, a / d, d);
      assert false;
    }
  }

  /** The airtime is the time of the (5 + N_sym) symbols in whole
      microseconds, rounded down, plus 2: it is exact to under a
      microsecond. */
  lemma TxTimeFloor(len: nat, encoding: nat, tSymNs: nat)
    requires encoding < 8
    ensures var t := TxTime(len, encoding, tSymNs);
            (t - 2) * 1000 <= (5 + NumSymbols(len, encoding)) * tSymNs < (t - 1) * 1000
  {
  }

  /** Airtime grows with the frame length and shrinks with the rate index. */
  lemma TxTimeMonotone(len1: nat, len2: nat, e1: nat, e2: nat, tSymNs: nat)
    requires len1 <= len2 && e2 <= e1 < 8
    ensures TxTime(len1, e1, tSymNs) <= TxTime(len2, e2, tSymNs)
  {
    NumSymbolsMonotoneInLength(len1, len2, e1);
    NumSymbolsAntitoneInRate(len2, e2, e1);
    MulMonotone(5 + NumSymbols(len1, e1), 5 + NumSymbols(len2, e2), tSymNs);
    DivMonotone((5 + NumSymbols(len1, e1)) * tSymNs, (5 + NumSymbols(len2, e2)) * tSymNs, 1000);
  }

  // ---------------------------------------------------------------------
  // Addresses
  // ---------------------------------------------------------------------

  /** Different node numbers get different addresses. */
  lemma AssignMacInjective(n1: int, n2: int)
    requires AssignMac(n1).Ok? && AssignMac(n2).Ok?
    ensures AssignMac(n1) == AssignMac(n2) <==> n1 == n2
  {
    if AssignMac(n1) == AssignMac(n2) {
      assert AssignMac(n1).value[5] == AssignMac(n2).value[5];
    }
  }

  // ---------------------------------------------------------------------
  // The NAV
  // ---------------------------------------------------------------------

  /** The NAV after a series of update_nav calls, one per element of
      `elapsed`. */
  function NavAfter(nav: int, slot: nat, elapsed: seq<nat>): int
    decreases |elapsed|
  {
    if elapsed == [] then nav else NavAfter(UpdateNav(nav, slot, elapsed[0]), slot, elapsed[1..])
  }

  /** When every call takes at least one slot of at least one time unit, a
      NAV of n units is used up (reaches zero or below) after n calls: the
      WAIT_FOR_NAV and TRANSMITTING_CTS states cannot wait for ever. */
  lemma {:induction false} NavDrains(nav: int, slot: nat, elapsed: seq<nat>)
    requires slot >= 1
    requires forall i :: 0 <= i < |elapsed| ==> elapsed[i] >= slot
    requires |elapsed| >= nav
    ensures NavAfter(nav, slot, elapsed) <= 0
    decreases |elapsed|
  {
    if elapsed != [] {
      var next := UpdateNav(nav, slot, elapsed[0]);
      assert next <= 0 || next <= nav - 1;
      NavDrains(next, slot, elapsed[1..]);
    }
  }
}
