/** Frame assembly and parsing, sequence numbering, airtime and backoff
    arithmetic of the 802.11 MAC helper library (uwicore_mac_utils.py).

    A frame is a sequence of bytes.  Python slices clamp their bounds to the
    string length; out-of-range single indexing raises IndexError, which the
    parser returns as an error. */
module MacUtils {
  import opened Wrappers

  type byte = x: int | 0 <= x < 256
  type bytes = seq<byte>

  /** Python's s[lo:hi] for non-negative bounds: both bounds are clamped to
      the length and an inverted range is empty. */
  function Slice(s: bytes, lo: nat, hi: nat): (r: bytes)
    ensures |r| <= |s|
    ensures lo <= hi <= |s| ==> r == s[lo..hi]
  {
    var l := if lo <= |s| then lo else |s|;
    var h := if hi <= |s| then hi else |s|;
    if l <= h then s[l..h] else []
  }

  function Min(a: int, b: int): int { if a <= b then a else b }

  function Pow2(n: nat): (r: nat)
    ensures r >= 1
  {
    if n == 0 then 1 else 2 * Pow2(n - 1)
  }

  function Pow256(n: nat): (r: nat)
    ensures r >= 1
  {
    if n == 0 then 1 else 256 * Pow256(n - 1)
  }

  // ---------------------------------------------------------------------
  // Frame kinds and the records parse_mac and generate_pkt produce
  // ---------------------------------------------------------------------

  /** The "HEADER" string of a frame; NoHeader is the empty string that
      parse_mac returns for a frame it does not recognise. */
  datatype Header = NoHeader | Beacon | Cts | Rts | Ack | Data | DataFrag | DataRetx

  /** The frame type names generate_pkt accepts. */
  function HeaderNamed(name: string): (r: Option<Header>)
    ensures r.Some? ==> r.value != NoHeader
    ensures r.Some? <==> name in {"DATA", "DATA_FRAG", "DATA_RETX", "RTS", "CTS", "ACK", "BEACON"}
  {
    match name
    case "DATA" => Some(Data)
    case "DATA_FRAG" => Some(DataFrag)
    case "DATA_RETX" => Some(DataRetx)
    case "RTS" => Some(Rts)
    case "CTS" => Some(Cts)
    case "ACK" => Some(Ack)
    case "BEACON" => Some(Beacon)
    case _ => None
  }

  /** The "DATA" dictionary of a parsed frame.  For DATA and BEACON frames the
      field `mf` is the key "MF", which the parser fills with the fragment
      number, not with the More Fragments bit. */
  datatype Info =
    | NoInfo
    | BeaconInfo(packet: bytes, duration: nat, add1: bytes, add2: bytes, nSeq: nat, nFrag: nat, mf: nat,
                 timestamp: nat, bi: nat, ssid: bytes)
    | CtsInfo(packet: bytes, txTime: nat, rxAdd: bytes)
    | RtsInfo(packet: bytes, txTime: nat, rxAdd: bytes, txAdd: bytes)
    | AckInfo(packet: bytes, txTime: nat, rxAdd: bytes)
    | DataInfo(packet: bytes, txTime: nat, add1: bytes, add2: bytes, nSeq: nat, nFrag: nat, mf: nat,
               payload: bytes)

  datatype Parsed = Parsed(header: Header, info: Info)

  /** The only exception parse_mac can raise: a byte read past the end. */
  datatype ParseError = IndexError

  // ---------------------------------------------------------------------
  // Field decoding
  // ---------------------------------------------------------------------

  /** Two bytes read low byte first, as every 16-bit field is read. */
  function Le16(lo: byte, hi: byte): (r: nat)
    ensures r < 65536
  {
    lo + hi * 256
  }

  /** The sequence number held in the two Sequence Control bytes. */
  function SeqNumber(b0: byte, b1: byte): (r: nat)
    ensures r < 4096
  {
    b0 / 16 + b1 * 16
  }

  /** The fragment number held in the first Sequence Control byte. */
  function FragNumber(b0: byte): (r: nat)
    ensures r < 16
  {
    b0 % 16
  }

  /** An unsigned integer stored least significant byte first. */
  function LittleEndian(s: bytes): (r: nat)
    ensures r < Pow256(|s|)
  {
    if s == [] then 0 else s[0] + 256 * LittleEndian(s[1..])
  }

  /** The header kind of a frame whose first byte is 0x08, chosen by its
      second byte. */
  function DataHeader(b1: byte): Header
  {
    if b1 == 0x00 then Data else if b1 == 0x04 then DataFrag else if b1 == 0x08 then DataRetx else NoHeader
  }

  /** True when the frame is too short for the reads its first bytes call
      for: this is exactly when parse_mac raises IndexError. */
  predicate ShortForItsType(pkt: bytes)
  {
    |pkt| == 0
    || (pkt[0] == 0x80 && (|pkt| < 36 || |pkt| == 37))
    || (pkt[0] in {0xc4, 0xb4, 0xd4} && |pkt| < 4)
    || (pkt[0] == 0x08 && (|pkt| < 2 || (pkt[1] in {0x00, 0x04, 0x08} && |pkt| < 24)))
  }

  /** Recognise a frame by its Frame Control bytes and read its fields. */
  function ParseMac(pkt: bytes): (r: Result<Parsed, ParseError>)
    ensures r.Err? <==> ShortForItsType(pkt)
    ensures r.Ok? ==> (r.value.header == NoHeader <==> r.value.info == NoInfo)
    ensures r.Ok? && r.value.header == NoHeader <==>
              |pkt| > 0 && pkt[0] !in {0x80, 0xc4, 0xb4, 0xd4}
              && (pkt[0] == 0x08 ==> |pkt| >= 2 && pkt[1] !in {0x00, 0x04, 0x08})
    ensures r.Ok? && r.value.info != NoInfo ==> r.value.info.packet == pkt
    ensures r.Ok? && r.value.header in {Data, DataFrag, DataRetx} ==>
              r.value.info.DataInfo? && |pkt| >= 24 && r.value.info.payload == pkt[24..]
              && r.value.info.mf == r.value.info.nFrag && r.value.info.nSeq < 4096 && r.value.info.nFrag < 16
    ensures r.Ok? && r.value.header == Beacon ==>
              r.value.info.BeaconInfo? && r.value.info.mf == r.value.info.nFrag
    ensures r.Ok? && r.value.header == Cts ==> r.value.info.CtsInfo?
    ensures r.Ok? && r.value.header == Rts ==> r.value.info.RtsInfo?
    ensures r.Ok? && r.value.header == Ack ==> r.value.info.AckInfo?
  {
    if |pkt| == 0 then Err(IndexError)
    else if pkt[0] == 0x80 then
      if |pkt| < 36 || |pkt| == 37 then Err(IndexError)
      else
        var sn := SeqNumber(pkt[22], pkt[23]);
        var frag := FragNumber(pkt[22]);
        var ssidLen: nat := if |pkt| > 36 then pkt[37] else 0;
        var ssid := if |pkt| > 36 then Slice(pkt, 38, 38 + ssidLen) else [];
        Ok(Parsed(Beacon, BeaconInfo(pkt, Le16(pkt[2], pkt[3]), pkt[4..10], pkt[10..16], sn, frag, frag,
                                     LittleEndian(pkt[24..32]), Le16(pkt[32], pkt[33]), ssid)))
    else if pkt[0] in {0xc4, 0xb4, 0xd4} then
      if |pkt| < 4 then Err(IndexError)
      else
        var txTime := Le16(pkt[2], pkt[3]);
        if pkt[0] == 0xc4 then Ok(Parsed(Cts, CtsInfo(pkt, txTime, Slice(pkt, 4, 10))))
        else if pkt[0] == 0xb4 then Ok(Parsed(Rts, RtsInfo(pkt, txTime, Slice(pkt, 4, 10), Slice(pkt, 10, 16))))
        else Ok(Parsed(Ack, AckInfo(pkt, txTime, Slice(pkt, 4, 10))))
    else if pkt[0] == 0x08 then
      if |pkt| < 2 then Err(IndexError)
      else if pkt[1] !in {0x00, 0x04, 0x08} then Ok(Parsed(NoHeader, NoInfo))
      else if |pkt| < 24 then Err(IndexError)
      else
        var frag := FragNumber(pkt[22]);
        Ok(Parsed(DataHeader(pkt[1]),
                  DataInfo(pkt, Le16(pkt[2], pkt[3]), pkt[4..10], pkt[10..16], SeqNumber(pkt[22], pkt[23]),
                           frag, frag, pkt[24..])))
    else Ok(Parsed(NoHeader, NoInfo))
  }

  // ---------------------------------------------------------------------
  // Field encoding
  // ---------------------------------------------------------------------

  /** Six bytes of 0xff: the broadcast address and the BSSID placeholder. */
  const Broadcast: bytes := [0xff, 0xff, 0xff, 0xff, 0xff, 0xff]

  /** Sequence numbers are kept within [0, 4095]. */
  function NextSeqNum(n: nat): (r: nat)
    ensures r < 4096
    ensures n < 4095 ==> r == n + 1
    ensures n == 4095 ==> r == 0
  {
    (n + 1) % 4096
  }

  /** The two Sequence Control bytes: low nibble of the sequence number and
      the fragment number in the first byte, bits 4..11 of the sequence
      number in the second. */
  function SeqControl(sn: nat, frag: nat): (r: bytes)
    ensures |r| == 2
    ensures SeqNumber(r[0], r[1]) == sn % 4096
    ensures FragNumber(r[0]) == frag % 16
  {
    var b0 := (sn % 16) * 16 + frag % 16;
    var b1 := (sn / 16) % 256;
    SeqControlLemma(sn, frag, b0, b1);
    [b0, b1]
  }

  lemma SeqControlLemma(sn: nat, frag: nat, b0: int, b1: int)
    requires b0 == (sn % 16) * 16 + frag % 16 && b1 == (sn / 16) % 256
    ensures 0 <= b0 < 256 && 0 <= b1 < 256
    ensures b0 / 16 + b1 * 16 == sn % 4096 && b0 % 16 == frag % 16
  {
    var lo := sn % 16;
    var hi := sn / 16;
    DivMod16(b0, lo, frag % 16);
    var q := hi / 256;
    assert hi == q * 256 + b1;
    assert sn == hi * 16 + lo;
    DivMod4096(sn, q, b1 * 16 + lo);
  }

  /** Division by 16 undoes a base-16 split. */
  lemma DivMod16(x: int, q: int, r: int)
    requires 0 <= r < 16 && x == q * 16 + r
    ensures x / 16 == q && x % 16 == r
  {
  }

  /** Division by 4096 undoes a base-4096 split. */
  lemma DivMod4096(x: int, q: int, r: int)
    requires 0 <= r < 4096 && x == q * 4096 + r
    ensures x / 4096 == q && x % 4096 == r
  {
  }

  /** The 16-bit value v as the duration field writes it: high byte first. */
  function DurationField(v: nat): (r: bytes)
    ensures |r| == 2
    ensures Le16(r[0], r[1]) == Swap16(v % 65536)
  {
    SplitBytes16(v);
    [(v / 256) % 256, v % 256]
  }

  lemma SplitBytes16(v: nat)
    ensures (v % 65536) / 256 == (v / 256) % 256 && (v % 65536) % 256 == v % 256
  {
    var w := v % 65536;
    var l := w % 256;
    var h := w / 256;
    assert w == h * 256 + l && h < 256;
    var q := v / 65536;
    assert v == q * 65536 + w;
    DivMod256(v, q * 256 + h, l);
    DivMod256(q * 256 + h, q, h);
  }

  /** Division by 256 undoes a base-256 split. */
  lemma DivMod256(x: int, q: int, r: int)
    requires 0 <= r < 256 && x == q * 256 + r
    ensures x / 256 == q && x % 256 == r
  {
  }

  /** The 16-bit value with its two bytes exchanged. */
  function Swap16(w: nat): (r: nat)
    requires w < 65536
    ensures r < 65536
    ensures r % 256 == w / 256 && r / 256 == w % 256
  {
    w / 256 + (w % 256) * 256
  }

  /** n bytes of x, least significant first. */
  function ToLittleEndian(x: nat, n: nat): (r: bytes)
    ensures |r| == n
  {
    if n == 0 then [] else [x % 256] + ToLittleEndian(x / 256, n - 1)
  }

  /** The eight-byte timestamp of a beacon: one second past `now`. */
  function TimestampField(now: nat): (r: bytes)
    ensures |r| == 8
  {
    ToLittleEndian(now + 1, 8)
  }

  /** The largest beacon interval the field is meant to hold, in seconds,
      as the code compares it. */
  const BeaconIntervalMaxSeconds := 67108

  /** The Beacon Interval field, from an interval given in microseconds:
      0xffff above the cap, otherwise the interval in 1024-microsecond time
      units plus one, stored low byte first and cut to 16 bits. */
  function BeaconIntervalField(biMicros: nat): (r: bytes)
    ensures |r| == 2
    ensures biMicros > BeaconIntervalMaxSeconds * 1000000 ==> Le16(r[0], r[1]) == 65535
    ensures biMicros <= BeaconIntervalMaxSeconds * 1000000 ==>
              Le16(r[0], r[1]) == (biMicros / 1024 + 1) % 65536
  {
    if biMicros > BeaconIntervalMaxSeconds * 1000000 then [0xff, 0xff]
    else
      var t := biMicros / 1024 + 1;
      [t % 256, (t / 256) % 256]
  }

  // ---------------------------------------------------------------------
  // Airtime
  // ---------------------------------------------------------------------

  /** Data bits per OFDM symbol of the eight 802.11a/g rates. */
  function DataBitsPerSymbol(encoding: nat): (r: nat)
    requires encoding < 8
    ensures r >= 24
  {
    [24, 36, 48, 72, 96, 144, 192, 216][encoding]
  }

  /** The least q with q * d >= a. */
  function CeilDiv(a: nat, d: nat): (q: nat)
    requires d > 0
    ensures q * d >= a
    ensures q == 0 || (q - 1) * d < a
  {
    var q := (a + d - 1) / d;
    var m := (a + d - 1) % d;
    assert a + d - 1 == q * d + m;
    assert (q - 1) * d == q * d - d;
    q
  }

  /** OFDM symbols needed for a frame of `len` bytes: 16 SERVICE bits, 6 tail
      bits and the 32-bit FCS come on top of the frame's own bits. */
  function NumSymbols(len: nat, encoding: nat): (n: nat)
    requires encoding < 8
    ensures n * DataBitsPerSymbol(encoding) >= 54 + 8 * len
    ensures (n - 1) * DataBitsPerSymbol(encoding) < 54 + 8 * len
  {
    CeilDiv(54 + 8 * len, DataBitsPerSymbol(encoding))
  }

  /** Frame airtime in microseconds: preamble and signal (5 symbols) plus the
      data symbols, each `tSymNs` nanoseconds long, truncated, plus 2. */
  function TxTime(len: nat, encoding: nat, tSymNs: nat): (t: nat)
    requires encoding < 8
    ensures t >= 2
  {
    ((5 + NumSymbols(len, encoding)) * tSymNs) / 1000 + 2
  }

  // ---------------------------------------------------------------------
  // Frame assembly
  // ---------------------------------------------------------------------

  /** The dictionary passed to generate_pkt; each kind of frame reads its own
      keys.  `macTa` is absent from the dictionaries the CTS and ACK callers
      build. */
  datatype Request =
    | DataRequest(payload: bytes, address1: bytes, address2: bytes, nSeq: nat, nFrag: nat, timestamp: int)
    | ControlRequest(duration: nat, macRa: bytes, macTa: Option<bytes>, timestamp: int)
    | BeaconRequest(address2: bytes, nSeq: nat, nFrag: nat, biMicros: nat)

  /** The "INFO" dictionary generate_pkt returns. */
  datatype Frame =
    | BeaconFrame(packet: bytes, txTime: nat, durationField: bytes, add1: bytes, add2: bytes, nSeq: nat, nFrag: nat,
                  mf: nat, timestamp: int, biMicros: nat)
    | ControlFrame(packet: bytes, txTime: nat, durationField: bytes, rxAdd: bytes, txAdd: Option<bytes>,
                   timestamp: int)
    | DataFrame(packet: bytes, txTime: nat, durationField: bytes, add1: bytes, add2: bytes, nSeq: nat, nFrag: nat,
                mf: nat, payload: bytes, timestamp: int)

  datatype Generated = Generated(header: Header, info: Frame, encoding: nat)

  /** ValueError for an unknown type, KeyError for a dictionary without the
      keys the frame reads, AssertionError for a rate index outside [0, 8),
      ValueError for an MPDU longer than 2304 bytes. */
  datatype GenError = InvalidFrameType | MissingKey | EncodingOutOfRange | FrameTooLong

  /** The largest MPDU, FCS included. */
  const MaxMpduLength := 2304

  /** Second Frame Control byte of a DATA frame.  As the code is written the
      conditional expression binds loosest, so the retransmission flag only
      counts when the frame is also a fragment. */
  function DataControlByte(reTx: bool, frag: bool): byte
  {
    if frag then (if reTx then 0x0c else 0x04) else 0x00
  }

  function MakeData(payload: bytes, address1: bytes, address2: bytes, nSeq: nat, nFrag: nat, timestamp: int,
                    encoding: nat, tSymNs: nat, reTx: bool, frag: bool): (f: Frame)
    requires encoding < 8
    ensures f.DataFrame? && |f.packet| == 24 + |payload| + (|address1| - 6) + (|address2| - 6)
    ensures f.txTime == TxTime(24 + |payload|, encoding, tSymNs)
    ensures f.packet[..2] == [0x08, DataControlByte(reTx, frag)]
    ensures f.mf == (if frag then 1 else 0)
  {
    var txTime := TxTime(24 + |payload|, encoding, tSymNs);
    var dur := DurationField(txTime);
    var packet := [0x08, DataControlByte(reTx, frag)] + dur + address1 + address2 + Broadcast
                  + SeqControl(nSeq, nFrag) + payload;
    DataFrame(packet, txTime, dur, address1, address2, nSeq, nFrag, if frag then 1 else 0, payload, timestamp)
  }

  /** RTS (first byte 0xb4) or CTS (0xc4): the duration field holds the
      frame's own airtime plus the caller's duration, plus one. */
  function MakeReservation(first: byte, duration: nat, ra: bytes, ta: Option<bytes>, timestamp: int,
                           encoding: nat, tSymNs: nat): (f: Frame)
    requires encoding < 8
    ensures f.ControlFrame? && f.rxAdd == ra && f.txAdd == ta
    ensures f.txTime == TxTime(4 + |ra| + (if ta.Some? then |ta.value| else 0), encoding, tSymNs) + duration + 1
  {
    var tail := if ta.Some? then ra + ta.value else ra;
    var txTime := TxTime(4 + |tail|, encoding, tSymNs) + duration + 1;
    var dur := DurationField(txTime);
    ControlFrame([first, 0x00] + dur + tail, txTime, dur, ra, ta, timestamp)
  }

  /** ACK: the duration field stays zero; the airtime is computed but only
      reported; the timestamp is the clock reading. */
  function MakeAck(ra: bytes, now: nat, encoding: nat, tSymNs: nat): (f: Frame)
    requires encoding < 8
    ensures f.ControlFrame? && f.packet == [0xd4, 0x00, 0x00, 0x00] + ra
    ensures f.txTime == TxTime(4 + |ra|, encoding, tSymNs)
  {
    var packet := [0xd4, 0x00, 0x00, 0x00] + ra;
    ControlFrame(packet, TxTime(|packet|, encoding, tSymNs), [0x00, 0x00], ra, None, now)
  }

  /** BEACON: broadcast destination and BSSID, a timestamp one second past the
      clock, the Beacon Interval field and zero capability bytes. */
  function MakeBeacon(address2: bytes, nSeq: nat, nFrag: nat, biMicros: nat, now: nat, encoding: nat,
                      tSymNs: nat): (f: Frame)
    requires encoding < 8
    ensures f.BeaconFrame? && |f.packet| == 30 + |address2|
    ensures f.mf == 0 && f.timestamp == now + 1 && f.add1 == Broadcast && f.add2 == address2
  {
    var body := Broadcast + address2 + Broadcast + SeqControl(nSeq, nFrag) + TimestampField(now)
                + BeaconIntervalField(biMicros) + [0x00, 0x00];
    var txTime := TxTime(4 + |body|, encoding, tSymNs);
    var dur := DurationField(txTime);
    BeaconFrame([0x80, 0x00] + dur + body, txTime, dur, Broadcast, address2, nSeq, nFrag, 0, now + 1, biMicros)
  }

  /** The frame of kind h built from the request, or the exception the
      builder raises first: a missing key before the rate assertion. */
  function MakeFrame(h: Header, req: Request, encoding: int, tSymNs: nat, now: nat): (r: Result<Frame, GenError>)
    requires h != NoHeader
    ensures r.Err? ==> r.error in {MissingKey, EncodingOutOfRange}
    ensures r.Ok? ==> 0 <= encoding < 8
  {
    match h
    case Data | DataFrag | DataRetx =>
      if !req.DataRequest? then Err(MissingKey)
      else if !(0 <= encoding < 8) then Err(EncodingOutOfRange)
      else Ok(MakeData(req.payload, req.address1, req.address2, req.nSeq, req.nFrag, req.timestamp,
                       encoding, tSymNs, h == DataRetx, h == DataFrag))
    case Rts =>
      if !req.ControlRequest? || req.macTa.None? then Err(MissingKey)
      else if !(0 <= encoding < 8) then Err(EncodingOutOfRange)
      else Ok(MakeReservation(0xb4, req.duration, req.macRa, req.macTa, req.timestamp, encoding, tSymNs))
    case Cts =>
      if !req.ControlRequest? then Err(MissingKey)
      else if !(0 <= encoding < 8) then Err(EncodingOutOfRange)
      else Ok(MakeReservation(0xc4, req.duration, req.macRa, None, req.timestamp, encoding, tSymNs))
    case Ack =>
      if !req.ControlRequest? then Err(MissingKey)
      else if !(0 <= encoding < 8) then Err(EncodingOutOfRange)
      else Ok(MakeAck(req.macRa, now, encoding, tSymNs))
    case Beacon =>
      if !req.BeaconRequest? then Err(MissingKey)
      else if !(0 <= encoding < 8) then Err(EncodingOutOfRange)
      else Ok(MakeBeacon(req.address2, req.nSeq, req.nFrag, req.biMicros, now, encoding, tSymNs))
  }

  /** Assemble the MPDU of the named kind (the FCS is appended later, but its
      four bytes count towards the length limit).  `now` is the clock, in
      whole seconds, that the ACK and BEACON builders read. */
  function GeneratePkt(name: string, tSymNs: nat, encoding: int, req: Request, now: nat): (r: Result<Generated, GenError>)
    ensures HeaderNamed(name).None? <==> r == Err(InvalidFrameType)
    ensures r.Ok? ==> Some(r.value.header) == HeaderNamed(name) && r.value.encoding == encoding
    ensures r.Ok? ==> |r.value.info.packet| + 4 <= MaxMpduLength && 0 <= encoding < 8
    ensures r == Err(EncodingOutOfRange) ==> !(0 <= encoding < 8)
    ensures r == Err(FrameTooLong) ==> 0 <= encoding < 8
  {
    match HeaderNamed(name)
    case None => Err(InvalidFrameType)
    case Some(h) =>
      match MakeFrame(h, req, encoding, tSymNs, now)
      case Err(e) => Err(e)
      case Ok(f) =>
        if |f.packet| + 4 > MaxMpduLength then Err(FrameTooLong)
        else Ok(Generated(h, f, encoding))
  }

  // ---------------------------------------------------------------------
  // Addresses, backoff and the NAV
  // ---------------------------------------------------------------------

  /** chr() only accepts [0, 256). */
  datatype AddressError = NodeIdOutOfRange

  /** The node's MAC address 00:50:c2:85:33:<node>. */
  function AssignMac(node: int): (r: Result<bytes, AddressError>)
    ensures r.Ok? <==> 0 <= node < 256
    ensures r.Ok? ==> |r.value| == 6 && r.value[..5] == [0x00, 0x50, 0xc2, 0x85, 0x33] && r.value[5] == node
  {
    if 0 <= node < 256 then Ok([0x00, 0x50, 0xc2, 0x85, 0x33, node]) else Err(NodeIdOutOfRange)
  }

  /** random.randint raises ValueError when its range is empty. */
  datatype RetryError = EmptyRange

  lemma MulAtLeastOne(a: nat, b: nat)
    requires b >= 1
    ensures a * b >= a
  {
  }

  /** The backoff counter after `count` failed attempts: CWmin the first
      time, afterwards a uniform draw from [CWmin, min(1023, CWmin * 2^count)].
      The draw is any value of the range. */
  method Retry(count: nat, cwMin: nat) returns (r: Result<nat, RetryError>)
    ensures count == 0 ==> r == Ok(cwMin)
    ensures count > 0 ==> (r.Ok? <==> cwMin <= 1023)
    ensures count > 0 && r.Ok? ==> cwMin <= r.value <= 1023 && r.value <= cwMin * Pow2(count)
  {
    if count == 0 {
      return Ok(cwMin);
    }
    MulAtLeastOne(cwMin, Pow2(count));
    var cw := Min(1023, cwMin * Pow2(count));
    if cwMin > cw {
      return Err(EmptyRange);
    }
    var v :| cwMin <= v <= cw;
    return Ok(v);
  }

  /** The Network Allocation Vector after one slot of waiting.  `elapsed` is
      the time that passed since the clock was read (the slot slept, at
      least).  A NAV of exactly zero stays zero; a remainder of at most one
      slot is slept away and becomes zero; otherwise the remainder is
      returned, and it can be negative. */
  function UpdateNav(nav: int, slot: nat, elapsed: nat): (r: int)
    ensures nav == 0 ==> r == 0
    ensures !(0 < r <= slot)
    ensures r != 0 ==> r == nav - elapsed
    ensures r == 0 <==> nav == 0 || 0 <= nav - elapsed <= slot
  {
    if nav == 0 then 0
    else
      var rest := nav - elapsed;
      if 0 < rest <= slot then 0 else rest
  }
}
