/** The DCF finite state machine with RTS/CTS, fragmentation and rate
    adaptation (mac_wifi.py `main`, and the same loop in mac.py
    `MacWifi.run`).  One call of `Step` is one pass of the `while True` loop:
    what the PHY and upper-layer polls answer, the channel samples, the
    clock and the expiry of the current wait are its inputs, and the frames
    sent, packets handed up, buffer removals and rate-controller calls are
    recorded in a ghost trace. */
module Dcf {
  import opened Wrappers
  import opened MacUtils
  import MacUtilsProofs
  import RateAdapt

  /** Smallest contention window. */
  const CwMin := 15

  /** Payloads longer than this are sent in fragments. */
  const FragmentationThreshold := 1036

  /** Control frames (RTS, CTS, ACK) always go at the lowest rate index. */
  const ControlEncoding := 0

  // ---------------------------------------------------------------------
  // Configuration
  // ---------------------------------------------------------------------

  datatype RateControlKind = NoRateControl | MinstrelControl | AarfControl

  datatype ConfigError = InvalidRateControl | MinstrelWithoutRetransmissions | SameNode | AddressOutOfRange

  /** str.lower() on one character: only ASCII capitals change. */
  function LowerChar(c: char): (r: char)
    ensures 'A' <= c <= 'Z' ==> 'a' <= r <= 'z' && r as int - c as int == 32
    ensures !('A' <= c <= 'Z') ==> r == c
  {
    if 'A' <= c <= 'Z' then (c as int + 32) as char else c
  }

  function LowerAscii(s: string): (r: string)
    ensures |r| == |s|
    ensures forall i :: 0 <= i < |s| ==> r[i] == LowerChar(s[i])
  {
    if s == [] then [] else [LowerChar(s[0])] + LowerAscii(s[1..])
  }

  /** Lower-casing twice changes nothing more. */
  lemma LowerAsciiIdempotent(s: string)
    ensures LowerAscii(LowerAscii(s)) == LowerAscii(s)
  {
    assert forall i :: 0 <= i < |s| ==> LowerChar(LowerChar(s[i])) == LowerChar(s[i]);
  }

  /** The rate-control option: compared case-insensitively with "none",
      "minstrel" and "aarf"; Minstrel is refused when retransmissions are
      disabled. */
  function SelectRateControl(mode: string, retxMax: nat): (r: Result<RateControlKind, ConfigError>)
    ensures r.Ok? <==> LowerAscii(mode) in {"none", "minstrel", "aarf"}
                       && !(LowerAscii(mode) == "minstrel" && retxMax == 0)
    ensures r == Err(InvalidRateControl) <==> LowerAscii(mode) !in {"none", "minstrel", "aarf"}
    ensures r == Ok(NoRateControl) <==> LowerAscii(mode) == "none"
    ensures r == Ok(MinstrelControl) <==> LowerAscii(mode) == "minstrel" && retxMax != 0
    ensures r == Ok(AarfControl) <==> LowerAscii(mode) == "aarf"
    ensures r == Err(MinstrelWithoutRetransmissions) <==> LowerAscii(mode) == "minstrel" && retxMax == 0
  {
    var m := LowerAscii(mode);
    if m == "none" then Ok(NoRateControl)
    else if m == "minstrel" then (if retxMax == 0 then Err(MinstrelWithoutRetransmissions) else Ok(MinstrelControl))
    else if m == "aarf" then Ok(AarfControl)
    else Err(InvalidRateControl)
  }

  /** The option's spelling does not matter, only its letters. */
  lemma SelectRateControlIgnoresCase(mode: string, retxMax: nat)
    ensures SelectRateControl(LowerAscii(mode), retxMax) == SelectRateControl(mode, retxMax)
  {
    LowerAsciiIdempotent(mode);
  }

  /** mac_wifi.py: this node's address and the next node's, the destination
      of every upper-layer packet. */
  function StandaloneAddresses(node: int): (r: Result<(bytes, bytes), ConfigError>)
    ensures r.Ok? <==> 0 <= node < 255
    ensures r.Ok? ==> r.value.0 != r.value.1 && |r.value.0| == 6 && |r.value.1| == 6
    ensures r.Ok? ==> r.value.0 == AssignMac(node).value && r.value.1 == AssignMac(node + 1).value
  {
    match (AssignMac(node), AssignMac(node + 1))
    case (Ok(mine), Ok(dest)) =>
      MacUtilsProofs.AssignMacInjective(node, node + 1);
      Ok((mine, dest))
    case _ => Err(AddressOutOfRange)
  }

  /** mac.py: the destination node comes from the configuration and must not
      be the node itself. */
  function ConfiguredAddresses(node: int, destNode: int): (r: Result<(bytes, bytes), ConfigError>)
    ensures r == Err(SameNode) <==> node == destNode
    ensures r.Ok? <==> node != destNode && 0 <= node < 256 && 0 <= destNode < 256
    ensures r.Ok? ==> r.value.0 != r.value.1 && |r.value.0| == 6 && |r.value.1| == 6
    ensures r.Ok? ==> r.value.0 == AssignMac(node).value && r.value.1 == AssignMac(destNode).value
  {
    if node == destNode then Err(SameNode)
    else
      match (AssignMac(node), AssignMac(destNode))
      case (Ok(mine), Ok(dest)) =>
        MacUtilsProofs.AssignMacInjective(node, destNode);
        Ok((mine, dest))
      case _ => Err(AddressOutOfRange)
  }

  // ---------------------------------------------------------------------
  // Fragmentation
  // ---------------------------------------------------------------------

  function Concat(parts: seq<bytes>): (r: bytes)
    ensures parts == [] ==> r == []
  {
    if parts == [] then [] else parts[0] + Concat(parts[1..])
  }

  /** The split the sender applies to long payloads: consecutive pieces of
      `threshold` bytes, the last one shorter or equal. */
  function Fragment(p: bytes, threshold: nat): (r: seq<bytes>)
    requires threshold > 0
    ensures Concat(r) == p
    ensures forall i :: 0 <= i < |r| ==> 0 < |r[i]| <= threshold
    ensures forall i :: 0 <= i < |r| - 1 ==> |r[i]| == threshold
    ensures |r| == 0 <==> p == []
    ensures |p| > threshold ==> |r| >= 2
    decreases |p|
  {
    if |p| <= threshold then (if p == [] then [] else [p])
    else
      var rest := Fragment(p[threshold..], threshold);
      assert ([p[..threshold]] + rest)[1..] == rest;
      assert p[..threshold] + p[threshold..] == p;
      [p[..threshold]] + rest
  }

  // ---------------------------------------------------------------------
  // Inputs and outputs of one pass of the loop
  // ---------------------------------------------------------------------

  datatype MacState =
    | Idle | WaitForNav | WaitForDifs | BackingOff | TransmittingRts | TransmittingUnicast | WaitingForCts
    | TransmittingFragmentedPacket | WaitAckFragmented | WaitingForAck | TransmittingCts | WaitingForData
    | TxAckFg | TransmittingAck

  datatype Channel = Free | Occupied

  /** The states in which a payload is being transmitted. */
  predicate InFlight(s: MacState)
  {
    s.TransmittingUnicast? || s.WaitingForCts? || s.WaitingForAck? || s.TransmittingFragmentedPacket?
    || s.WaitAckFragmented?
  }

  /** The states of the channel-access half of the loop. */
  predicate Contending(s: MacState)
  {
    s.Idle? || s.WaitForNav? || s.WaitForDifs? || s.BackingOff?
  }

  /** The states in which the node answers another station. */
  predicate Answering(s: MacState)
  {
    s.TransmittingCts? || s.WaitingForData? || s.TxAckFg? || s.TransmittingAck?
  }

  /** The upper-layer buffer's answer: a packet to send, a beacon to send,
      or nothing (the answer still carries a data field). */
  datatype UlReply = UlData(packet: bytes) | UlBeacon | UlNothing(data: bytes)

  /** What the polls of one pass return.  Each state reads only the fields it
      polls; `elapsed` is the time a NAV update sees pass, in the frame
      duration's units, and `timerExpired` says whether the wait of the
      current state (CTS, ACK or DATA timeout) is over. */
  datatype Poll = Poll(rts: Option<Info>, data: Option<Info>, ack: Option<Info>, cts: Option<Info>, ul: UlReply,
                       difsSamples: seq<Channel>, backoffSample: Channel, elapsed: nat, timerExpired: bool,
                       now: nat)

  /** A DATA frame as parse_mac returns it: the "MF" key holds the fragment
      number and the payload is the packet from byte 24 on. */
  predicate WellFormedData(i: Info)
  {
    i.DataInfo? && i.mf == i.nFrag && |i.packet| >= 24 && i.payload == i.packet[24..]
  }

  /** The PHY's queues only hold frames of their own kind, and the DIFS
      sensing loop takes two channel samples. */
  predicate WellFormedPoll(p: Poll)
  {
    (p.rts.Some? ==> p.rts.value.RtsInfo?)
    && (p.data.Some? ==> WellFormedData(p.data.value))
    && (p.ack.Some? ==> p.ack.value.AckInfo?)
    && (p.cts.Some? ==> p.cts.value.CtsInfo?)
    && |p.difsSamples| == 2
  }

  /** What the machine does to the world.  `SentFrame` carries the arguments
      of the generate_pkt call whose frame goes to the PHY; RTS and CTS carry
      their addresses only. */
  datatype Event =
    | SentFrame(name: string, req: Request, encoding: nat, now: nat)
    | SentRts(ra: bytes, ta: bytes)
    | SentCts(ra: bytes)
    | Delivered(payload: bytes)
    | RemovedFromBuffer
    | RateSelected(rate: nat, success: bool, next: nat)

  /** The DIFS sensing loop: the channel counts as busy when any of the two
      samples is. */
  method SenseForDifs(samples: seq<Channel>) returns (busy: bool)
    requires |samples| == 2
    ensures busy <==> Occupied in samples
  {
    busy := false;
    var n := 0;
    while n < 2
      invariant 0 <= n <= 2
      invariant busy <==> Occupied in samples[..n]
    {
      if samples[n] == Occupied {
        busy := true;
      }
      n := n + 1;
    }
    assert samples[..2] == samples;
  }

  /** The bounds retry() keeps: CW_min on the first attempt, then a draw in
      [CW_min, min(1023, CW_min * 2^count)]. */
  predicate RetryBounds(count: nat, v: nat)
  {
    if count == 0 then v == CwMin else CwMin <= v <= 1023 && v <= CwMin * Pow2(count)
  }

  datatype RateController =
    | NoController
    | Minstrel(m: RateAdapt.MinstrelController)
    | Aarf(a: RateAdapt.AarfController)

  class MacFsm {
    const myMac: bytes
    const retxMax: nat
    const rtsEnabled: bool
    const tSymNs: nat
    /** The slot time, in the units of `Poll.elapsed`. */
    const slot: nat
    /** The beacon interval option, in microseconds. */
    const biMicros: nat
    const rc: RateController

    var state: MacState
    var nav: int
    var busyInWfd: bool
    var boFrozen: bool
    var txAttempts: nat
    var ctsFailed: bool
    var backoff: nat
    var nSeq: nat
    var nFrag: nat
    var firstTx: bool
    var retxRetries: int
    var failTx: bool
    var fragCount: nat
    /** data_temp_reass: the fragments received so far. */
    var reass: bytes
    var beaconing: bool
    var fragmenting: bool
    var payload: bytes
    var destMac: bytes
    var ackAddr: bytes
    var fragments: seq<bytes>
    var firstTimeFg: bool
    /** fin_wait_ack_fragmented */
    var lastFragmentSent: bool
    var encoding: nat
    /** Set when the loop raised an exception and the MAC process died. */
    var halted: bool

    ghost var trace: seq<Event>
    /** Unicast sends of the current payload since first_tx was last set. */
    ghost var sends: nat

    function Controllers(): set<object>
    {
      match rc
      case NoController => {}
      case Minstrel(m) => {m}
      case Aarf(a) => {a}
    }

    /** The controller objects are consistent and choose among the 8 OFDM
        rates. */
    ghost predicate ControllersValid()
      reads Controllers()
    {
      (rc.Minstrel? ==> rc.m.Valid() && rc.m.N() == 8)
      && (rc.Aarf? ==> rc.a.Valid() && rc.a.n == 8)
    }

    /** The invariant of the loop's variables: a rate index in the table,
        a 6-byte own address, a beacon only pending in TRANSMITTING_RTS, the
        retry budget and the fragment path's buffers. */
    ghost predicate Valid()
      reads this`encoding, this`busyInWfd, this`fragmenting, this`fragCount, this`beaconing, this`state,
            this`firstTx, this`retxRetries, this`sends, this`failTx, this`firstTimeFg, this`payload,
            this`fragments, this`lastFragmentSent
    {
      encoding < 8 && |myMac| == 6 && !busyInWfd && (fragmenting ==> fragCount >= 1)
      && (beaconing ==> state.TransmittingRts?)
      && RetryBudget() && FragmentsReady()
    }

    /** The retry budget: while a payload is in flight, the sends made plus
        the retries left equal retx_max (plus one while the last send waits
        for its ACK), and the next send is a retransmission exactly when one
        has been made. */
    ghost predicate RetryBudget()
      reads this`state, this`firstTx, this`retxRetries, this`sends, this`failTx
    {
      (InFlight(state) ==> !firstTx)
      && (!firstTx ==>
            0 <= retxRetries <= retxMax
            && sends + retxRetries == retxMax + (if state.WaitingForAck? then 1 else 0)
            && (failTx <==> sends > (if state.WaitingForAck? then 1 else 0)))
    }

    /** A fragment is at hand whenever the fragment path is about to send
        one. */
    ghost predicate FragmentsReady()
      reads this`state, this`firstTimeFg, this`payload, this`fragments, this`lastFragmentSent
    {
      (state.TransmittingFragmentedPacket? && firstTimeFg ==> |payload| > FragmentationThreshold)
      && (state.TransmittingFragmentedPacket? && !firstTimeFg ==> |fragments| >= 1)
      && (state.WaitAckFragmented? ==> !firstTimeFg && (!lastFragmentSent ==> |fragments| >= 1))
    }

    /** The machine as the loop starts it, with the controller the
        rate-control option selected (Minstrel with the default rate table
        and retx_max as its retry limit, AARF over 8 rates). */
    constructor(myAddress: bytes, destAddress: bytes, maxRetransmissions: nat, rts: bool, initialEncoding: nat,
                kind: RateControlKind, symbolNs: nat, slotTime: nat, beaconIntervalMicros: nat)
      requires |myAddress| == 6 && initialEncoding < 8
      requires kind == MinstrelControl ==> maxRetransmissions != 0
      ensures Valid() && ControllersValid()
      ensures myMac == myAddress && retxMax == maxRetransmissions && rtsEnabled == rts && tSymNs == symbolNs
      ensures slot == slotTime && biMicros == beaconIntervalMicros
      ensures kind == NoRateControl <==> rc.NoController?
      ensures kind == MinstrelControl <==> rc.Minstrel?
      ensures kind == AarfControl <==> rc.Aarf?
      ensures fresh(Controllers())
      ensures state.Idle? && nav == 0 && !busyInWfd && !boFrozen && txAttempts == 0 && !ctsFailed
      ensures nSeq == 0 && nFrag == 0 && firstTx && fragCount == 0 && reass == [] && !beaconing && !fragmenting
      ensures destMac == destAddress && encoding == initialEncoding && !halted && trace == []
    {
      myMac := myAddress;
      retxMax := maxRetransmissions;
      rtsEnabled := rts;
      tSymNs := symbolNs;
      slot := slotTime;
      biMicros := beaconIntervalMicros;
      match kind {
        case NoRateControl =>
          rc := NoController;
        case MinstrelControl =>
          var m := new RateAdapt.MinstrelController(initialEncoding, maxRetransmissions,
                                                    RateAdapt.DefaultSampleRatio, RateAdapt.DefaultRateTable);
          rc := Minstrel(m);
        case AarfControl =>
          var a := new RateAdapt.AarfController(initialEncoding, 8, RateAdapt.DefaultAarfN);
          rc := Aarf(a);
      }
      state := Idle;
      nav := 0;
      busyInWfd := false;
      boFrozen := false;
      txAttempts := 0;
      ctsFailed := false;
      backoff := 0;
      nSeq := 0;
      nFrag := 0;
      firstTx := true;
      retxRetries := 0;
      failTx := false;
      fragCount := 0;
      reass := [];
      beaconing := false;
      fragmenting := false;
      payload := [];
      destMac := destAddress;
      ackAddr := [];
      fragments := [];
      firstTimeFg := false;
      lastFragmentSent := false;
      encoding := initialEncoding;
      halted := false;
      trace := [];
      sends := 0;
    }

    /** What no pass of the loop undoes: the trace and the reassembly
        buffer only grow, a frozen backoff stays frozen, a dead process
        stays dead, and the rate only changes while an ACK is awaited. */
    twostate predicate Grows()
      reads this`trace, this`reass, this`boFrozen, this`halted, this`state, this`encoding
    {
      old(trace) <= trace && old(reass) <= reass && (old(boFrozen) ==> boFrozen) && (old(halted) ==> halted)
      && (!old(state).WaitingForAck? ==> encoding == old(encoding))
    }

    /** The rate-controller call, when rate control is on and the call
        returns (`died` when it raised instead). */
    function RateCall(rate: nat, success: bool, next: nat, died: bool): seq<Event>
    {
      if rc.NoController? || died then [] else [RateSelected(rate, success, next)]
    }

    /** Minstrel's packet counter has reached 60000: its next data_sel
        counts the packet, then assigns an integer to a list slice and
        raises TypeError. */
    ghost predicate CounterFull()
      reads Controllers()
    {
      rc.Minstrel? && rc.m.total >= RateAdapt.MaxTotalPackets
    }

    /** One pass of the loop.  A dead process does nothing; otherwise the
        trace only grows, a frozen backoff stays frozen, the reassembly
        buffer only grows and the rate only changes while an ACK is
        awaited. */
    method Step(poll: Poll)
      requires Valid() && ControllersValid() && WellFormedPoll(poll)
      modifies this, Controllers()
      ensures Valid() && ControllersValid()
      ensures old(halted) ==> unchanged(this)
      ensures Grows()
    {
      if halted {
        return;
      }
      if Contending(state) {
        StepContending(poll);
      } else if Answering(state) {
        StepAnswering(poll);
      } else if state.WaitingForAck? {
        StepWaitingForAck(poll);
      } else {
        StepSending(poll);
      }
    }

    /** The channel-access states: IDLE, WAIT_FOR_NAV, WAIT_FOR_DIFS and
        BACKING_OFF. */
    method StepContending(poll: Poll)
      requires Valid() && WellFormedPoll(poll) && !halted && Contending(state)
      modifies this`state, this`destMac, this`nav, this`ackAddr, this`trace, this`payload, this`beaconing,
               this`halted, this`backoff, this`txAttempts, this`busyInWfd, this`boFrozen
      ensures Valid()
      ensures Grows()
    {
      match state {
        case Idle => StepIdle(poll);
        case WaitForNav => StepWaitForNav(poll);
        case WaitForDifs => StepWaitForDifs(poll);
        case BackingOff => StepBackingOff(poll);
      }
    }

    /** The states that answer another station's RTS or DATA:
        TRANSMITTING_CTS, WAITING_FOR_DATA, TX_ACK_FG and TRANSMITTING_ACK. */
    method StepAnswering(poll: Poll)
      requires Valid() && WellFormedPoll(poll) && !halted && Answering(state)
      modifies this`nav, this`state, this`trace, this`ackAddr, this`fragCount, this`fragmenting, this`reass
      ensures Valid()
      ensures Grows()
    {
      match state {
        case TransmittingCts => StepTransmittingCts(poll);
        case WaitingForData => StepWaitingForData(poll);
        case TxAckFg => StepTxAckFg(poll);
        case TransmittingAck => StepTransmittingAck(poll);
      }
    }

    /** The states that send this node's own payload or beacon, up to the
        wait for its ACK. */
    method StepSending(poll: Poll)
      requires Valid() && WellFormedPoll(poll) && !halted
      requires !Contending(state) && !Answering(state) && !state.WaitingForAck?
      modifies this`state, this`trace, this`nSeq, this`beaconing, this`halted, this`retxRetries, this`failTx,
               this`sends, this`firstTx, this`firstTimeFg, this`nFrag, this`txAttempts, this`ctsFailed, this`nav,
               this`backoff, this`fragments, this`lastFragmentSent
      ensures Valid()
      ensures Grows()
    {
      match state {
        case TransmittingRts =>
          if beaconing {
            SendBeacon(poll);
          } else {
            StepTransmittingRts(poll);
          }
        case TransmittingUnicast => StepTransmittingUnicast(poll);
        case WaitingForCts => StepWaitingForCts(poll);
        case TransmittingFragmentedPacket => StepTransmittingFragmentedPacket(poll);
        case WaitAckFragmented => StepWaitAckFragmented(poll);
      }
    }

    /** WAITING_FOR_ACK: an ACK ends the payload, the timer's expiry spends
        a retry; otherwise nothing happens. */
    method StepWaitingForAck(poll: Poll)
      requires Valid() && ControllersValid() && !halted && state.WaitingForAck?
      modifies this`state, this`backoff, this`trace, this`firstTx, this`retxRetries, this`nFrag, this`failTx,
               this`encoding, this`halted, Controllers()
      ensures Valid() && ControllersValid()
      ensures Grows()
      ensures poll.ack.None? && !poll.timerExpired ==> unchanged(this)
    {
      if poll.ack.Some? {
        OnAck();
      } else if poll.timerExpired {
        OnAckTimeout();
      }
    }

    /** IDLE: an RTS for this node is answered with a CTS, another node's
        RTS sets the NAV; otherwise a DATA frame is handed up and
        acknowledged; otherwise the upper-layer buffer is read.  An
        overheard CTS then raises KeyError (the code reads the key
        "txtime"), before the NAV update that follows it. */
    method StepIdle(poll: Poll)
      requires Valid() && WellFormedPoll(poll) && !halted && state.Idle?
      modifies this`state, this`destMac, this`nav, this`ackAddr, this`trace, this`payload, this`beaconing,
               this`halted
      ensures Valid()
      ensures Grows()
      ensures poll.rts.Some? && poll.rts.value.rxAdd == myMac ==>
                state.TransmittingCts? && destMac == poll.rts.value.txAdd
                && unchanged(this`nav, this`ackAddr, this`trace, this`payload, this`beaconing, this`halted)
      ensures poll.rts.Some? && poll.rts.value.rxAdd != myMac ==>
                nav == UpdateNav(poll.rts.value.txTime, slot, poll.elapsed)
                && unchanged(this`state, this`destMac, this`ackAddr, this`trace, this`payload, this`beaconing,
                             this`halted)
      ensures poll.rts.None? && poll.data.Some? ==>
                state.TransmittingAck? && ackAddr == poll.data.value.add2
                && trace == old(trace) + [Delivered(poll.data.value.payload)]
                && unchanged(this`destMac, this`nav, this`payload, this`beaconing, this`halted)
      ensures poll.rts.None? && poll.data.None? && poll.ul.UlData? ==>
                state.WaitForNav? && payload == poll.ul.packet
                && unchanged(this`destMac, this`nav, this`ackAddr, this`trace, this`beaconing, this`halted)
      ensures poll.rts.None? && poll.data.None? && poll.ul.UlBeacon? ==>
                state.TransmittingRts? && payload == [] && beaconing
                && unchanged(this`destMac, this`nav, this`ackAddr, this`trace, this`halted)
      ensures poll.rts.None? && poll.data.None? && poll.ul.UlNothing? ==>
                payload == poll.ul.data && (halted <==> poll.cts.Some?)
                && unchanged(this`state, this`destMac, this`nav, this`ackAddr, this`trace, this`beaconing)
    {
      if poll.rts.Some? {
        IdleOnRts(poll.rts.value, poll.elapsed);
      } else if poll.data.Some? {
        IdleOnData(poll.data.value);
      } else {
        IdleReadBuffer(poll.ul, poll.cts.Some?);
      }
    }

    /** IDLE with an RTS at hand: one for this node is answered with a CTS
        to its sender, another node's sets the NAV. */
    method IdleOnRts(r: Info, elapsed: nat)
      requires Valid() && !halted && state.Idle? && r.RtsInfo?
      modifies this`state, this`destMac, this`nav
      ensures Valid()
      ensures Grows()
      ensures r.rxAdd == myMac ==> state.TransmittingCts? && destMac == r.txAdd && unchanged(this`nav)
      ensures r.rxAdd != myMac ==> nav == UpdateNav(r.txTime, slot, elapsed) && unchanged(this`state, this`destMac)
    {
      if r.rxAdd == myMac {
        destMac := r.txAdd;
        state := TransmittingCts;
      } else {
        nav := UpdateNav(r.txTime, slot, elapsed);
      }
    }

    /** IDLE with a DATA frame at hand: its payload (the packet from byte 24
        on) is handed up and an ACK to its sender is due. */
    method IdleOnData(d: Info)
      requires Valid() && !halted && state.Idle? && WellFormedData(d)
      modifies this`state, this`ackAddr, this`trace
      ensures Valid()
      ensures Grows()
      ensures state.TransmittingAck? && ackAddr == d.add2 && trace == old(trace) + [Delivered(d.payload)]
    {
      state := TransmittingAck;
      ackAddr := d.add2;
      trace := trace + [Delivered(d.packet[24..])];
    }

    /** IDLE with nothing from the PHY: the upper-layer buffer is read.  A
        packet starts the NAV wait, a beacon goes straight to
        TRANSMITTING_RTS; with nothing to send, an overheard CTS kills the
        process. */
    method IdleReadBuffer(ul: UlReply, ctsPending: bool)
      requires Valid() && !halted && state.Idle?
      modifies this`state, this`payload, this`beaconing, this`halted
      ensures Valid()
      ensures Grows()
      ensures ul.UlData? ==> state.WaitForNav? && payload == ul.packet && unchanged(this`beaconing, this`halted)
      ensures ul.UlBeacon? ==> state.TransmittingRts? && payload == [] && beaconing && unchanged(this`halted)
      ensures ul.UlNothing? ==> payload == ul.data && (halted <==> ctsPending) && unchanged(this`state, this`beaconing)
    {
      match ul {
        case UlData(p) =>
          payload := p;
          state := WaitForNav;
        case UlBeacon =>
          payload := [];
          beaconing := true;
          state := TransmittingRts;
        case UlNothing(x) =>
          payload := x;
          if ctsPending {
            halted := true;
          }
      }
    }

    /** WAIT_FOR_NAV: count the NAV down; carrier sensing starts once it is
        no longer positive. */
    method StepWaitForNav(poll: Poll)
      requires Valid() && WellFormedPoll(poll) && !halted && state.WaitForNav?
      modifies this`nav, this`state
      ensures Valid()
      ensures Grows()
      ensures nav == UpdateNav(old(nav), slot, poll.elapsed)
      ensures state.WaitForNav? <==> nav > 0
      ensures state.WaitForDifs? <==> nav <= 0
    {
      nav := UpdateNav(nav, slot, poll.elapsed);
      if nav > 0 {
        return;
      }
      state := WaitForDifs;
    }

    /** WAIT_FOR_DIFS: two channel samples.  The backoff counter is only
        touched while the backoff is not frozen and no CTS has failed: a
        free channel clears it, a busy one draws it from the contention
        window and counts the attempt. */
    method StepWaitForDifs(poll: Poll)
      requires Valid() && WellFormedPoll(poll) && !halted && state.WaitForDifs?
      modifies this`backoff, this`txAttempts, this`state
      ensures Valid()
      ensures Grows()
      ensures Occupied !in poll.difsSamples ==>
                state.BackingOff? && txAttempts == old(txAttempts)
                && backoff == (if !boFrozen && !ctsFailed then 0 else old(backoff))
      ensures Occupied in poll.difsSamples && !boFrozen && !ctsFailed ==>
                state.Idle? && txAttempts == old(txAttempts) + 1 && RetryBounds(old(txAttempts), backoff)
      ensures Occupied in poll.difsSamples && (boFrozen || ctsFailed) ==>
                state.Idle? && unchanged(this`backoff, this`txAttempts)
    {
      var busy := SenseForDifs(poll.difsSamples);
      if !busy {
        if !boFrozen && !busyInWfd && !ctsFailed {
          backoff := 0;
        }
        state := BackingOff;
      } else {
        if !boFrozen && !ctsFailed {
          DrawBackoff(txAttempts);
          txAttempts := txAttempts + 1;
        }
        state := Idle;
      }
    }

    /** retry(): the backoff counter after `count` failed attempts.  With
        CW_min at 15 the range is never empty, so the draw cannot raise. */
    method DrawBackoff(count: nat)
      modifies this`backoff
      ensures RetryBounds(count, backoff)
    {
      var r := Retry(count, CwMin);
      assert r.Ok?;
      backoff := r.value;
    }

    /** BACKING_OFF: a zero counter goes on to transmit; otherwise the
        counter drops by one whatever the channel, and a busy sample freezes
        the backoff and returns to IDLE. */
    method StepBackingOff(poll: Poll)
      requires Valid() && WellFormedPoll(poll) && !halted && state.BackingOff?
      modifies this`busyInWfd, this`backoff, this`boFrozen, this`state
      ensures Valid()
      ensures Grows()
      ensures !busyInWfd
      ensures old(backoff) == 0 ==> state.TransmittingRts? && backoff == 0 && boFrozen == old(boFrozen)
      ensures old(backoff) > 0 ==> backoff == old(backoff) - 1
      ensures old(backoff) > 0 && poll.backoffSample == Free ==>
                boFrozen == old(boFrozen) && (state.TransmittingRts? <==> backoff == 0)
                && (state.BackingOff? <==> backoff > 0)
      ensures old(backoff) > 0 && poll.backoffSample == Occupied ==> boFrozen && state.Idle?
    {
      busyInWfd := false;
      if backoff == 0 {
        state := TransmittingRts;
        return;
      }
      backoff := backoff - 1;
      if poll.backoffSample == Free {
        if backoff == 0 {
          state := TransmittingRts;
          busyInWfd := false;
        }
      } else {
        boFrozen := true;
        state := Idle;
      }
    }

    /** Whether building the DATA request the RTS path makes first, to learn
        the frame's airtime, raises: with 6-byte addresses, exactly for
        payloads over 2276 bytes. */
    function ProbeFails(now: nat): (r: bool)
      requires encoding < 8 && |myMac| == 6
      reads this`payload, this`destMac, this`nSeq, this`nFrag, this`encoding
      ensures r <==> GeneratePkt("DATA", tSymNs, encoding, DataRequest(payload, destMac, myMac, nSeq, nFrag, now), now).Err?
      ensures |destMac| == 6 ==> (r <==> |payload| > 2276)
    {
      if |destMac| == 6 then
        MacUtilsProofs.DataLengthLimit("DATA", tSymNs, encoding, DataRequest(payload, destMac, myMac, nSeq, nFrag, now), now);
        GeneratePkt("DATA", tSymNs, encoding, DataRequest(payload, destMac, myMac, nSeq, nFrag, now), now).Err?
      else
        GeneratePkt("DATA", tSymNs, encoding, DataRequest(payload, destMac, myMac, nSeq, nFrag, now), now).Err?
    }

    /** TRANSMITTING_RTS with a beacon pending: the beacon goes out with
        the current sequence number, is removed from the buffer, and the
        sequence number advances. */
    method SendBeacon(poll: Poll)
      requires Valid() && !halted && state.TransmittingRts? && beaconing
      modifies this`state, this`trace, this`nSeq, this`beaconing
      ensures Valid()
      ensures Grows()
      ensures state.Idle? && nSeq == NextSeqNum(old(nSeq)) && !beaconing
      ensures trace == old(trace) + [SentFrame("BEACON", BeaconRequest(myMac, old(nSeq), 0, biMicros), encoding,
                                               poll.now), RemovedFromBuffer]
    {
      var req := BeaconRequest(myMac, nSeq, 0, biMicros);
      state := Idle;
      trace := trace + [SentFrame("BEACON", req, encoding, poll.now), RemovedFromBuffer];
      nSeq := NextSeqNum(nSeq);
      beaconing := false;
    }

    /** TRANSMITTING_RTS with a payload: the retry budget is reset if this
        is the payload's first attempt, and with RTS enabled an RTS goes
        out before every payload: the code compares the payload string
        itself with the threshold, which Python 2 always finds greater.
        Building the DATA frame whose airtime the RTS announces raises for
        payloads over 2276 bytes, which kills the process. */
    method StepTransmittingRts(poll: Poll)
      requires Valid() && WellFormedPoll(poll) && !halted && state.TransmittingRts? && !beaconing
      modifies this`state, this`trace, this`halted, this`retxRetries, this`failTx, this`sends, this`firstTx
      ensures Valid()
      ensures Grows()
      ensures halted <==> rtsEnabled && old(ProbeFails(poll.now))
      ensures halted ==>
                unchanged(this`state, this`trace, this`retxRetries, this`failTx, this`sends, this`firstTx)
      ensures !halted ==>
                state == (if rtsEnabled then WaitingForCts else TransmittingUnicast)
                && !firstTx && (failTx <==> !old(firstTx) && old(failTx))
                && retxRetries == (if old(firstTx) then retxMax else old(retxRetries))
                && sends == (if old(firstTx) then 0 else old(sends))
                && trace == old(trace) + (if rtsEnabled then [SentRts(destMac, myMac)] else [])
    {
      if rtsEnabled && ProbeFails(poll.now) {
        halted := true;
        return;
      }
      StartAttempt();
    }

    /** TRANSMITTING_RTS once the probe has gone through: the attempt
        starts, and the RTS goes out when RTS is enabled. */
    method StartAttempt()
      requires Valid() && state.TransmittingRts? && !beaconing
      modifies this`state, this`trace, this`retxRetries, this`failTx, this`sends, this`firstTx
      ensures Valid()
      ensures Grows()
      ensures state == (if rtsEnabled then WaitingForCts else TransmittingUnicast)
      ensures !firstTx && (failTx <==> !old(firstTx) && old(failTx))
      ensures retxRetries == (if old(firstTx) then retxMax else old(retxRetries))
      ensures sends == (if old(firstTx) then 0 else old(sends))
      ensures trace == old(trace) + (if rtsEnabled then [SentRts(destMac, myMac)] else [])
    {
      BeginAttempt();
      if rtsEnabled {
        trace := trace + [SentRts(destMac, myMac)];
        state := WaitingForCts;
      } else {
        state := TransmittingUnicast;
      }
    }

    /** first_tx: a payload's first attempt resets the retry budget (retx_max
        retries, no retransmission yet); from here on the payload is in
        flight. */
    method BeginAttempt()
      requires Valid() && state.TransmittingRts?
      modifies this`retxRetries, this`failTx, this`sends, this`firstTx
      ensures Valid() && !firstTx
      ensures failTx <==> !old(firstTx) && old(failTx)
      ensures retxRetries == (if old(firstTx) then retxMax else old(retxRetries))
      ensures sends == (if old(firstTx) then 0 else old(sends))
    {
      if firstTx {
        retxRetries := retxMax;
        failTx := false;
        sends := 0;
        firstTx := false;
      }
    }

    /** TRANSMITTING_UNICAST: long payloads take the fragment path; others
        are sent as DATA, or DATA_RETX after a failed attempt, and every
        send advances the sequence number and clears the fragment number. */
    method StepTransmittingUnicast(poll: Poll)
      requires Valid() && WellFormedPoll(poll) && !halted && state.TransmittingUnicast?
      modifies this`state, this`firstTimeFg, this`nSeq, this`nFrag, this`trace, this`sends
      ensures Valid()
      ensures Grows()
      ensures |payload| > FragmentationThreshold ==>
                state.TransmittingFragmentedPacket? && firstTimeFg
                && unchanged(this`nSeq, this`nFrag, this`trace, this`sends)
      ensures |payload| <= FragmentationThreshold ==>
                state.WaitingForAck? && nSeq == NextSeqNum(old(nSeq)) && nFrag == 0 && sends == old(sends) + 1
                && trace == old(trace) + [SentFrame(if failTx then "DATA_RETX" else "DATA",
                                                    DataRequest(payload, destMac, myMac, old(nSeq), old(nFrag), poll.now),
                                                    encoding, poll.now)]
                && unchanged(this`firstTimeFg)
      ensures |payload| <= FragmentationThreshold ==> (failTx <==> old(sends) > 0)
    {
      if |payload| > FragmentationThreshold {
        state := TransmittingFragmentedPacket;
        firstTimeFg := true;
        return;
      }
      var req := DataRequest(payload, destMac, myMac, nSeq, nFrag, poll.now);
      var name := if !failTx then "DATA" else "DATA_RETX";
      nSeq := NextSeqNum(nSeq);
      nFrag := 0;
      trace := trace + [SentFrame(name, req, encoding, poll.now)];
      AwaitAck();
    }

    /** After a unicast DATA went out: one more send of the payload is
        counted and its ACK is awaited. */
    method AwaitAck()
      requires Valid() && state.TransmittingUnicast?
      modifies this`state, this`sends
      ensures Valid() && state.WaitingForAck? && sends == old(sends) + 1
    {
      state := WaitingForAck;
      sends := sends + 1;
    }

    /** WAITING_FOR_CTS: a CTS for this node lets the DATA go and clears the
        attempt count; another node's CTS sets the NAV and aborts; at the
        timeout the attempt is counted, a backoff drawn and the CTS failure
        remembered. */
    method StepWaitingForCts(poll: Poll)
      requires Valid() && WellFormedPoll(poll) && !halted && state.WaitingForCts?
      modifies this`state, this`txAttempts, this`ctsFailed, this`nav, this`backoff
      ensures Valid()
      ensures Grows()
      ensures poll.cts.Some? && poll.cts.value.rxAdd == myMac ==>
                state.TransmittingUnicast? && txAttempts == 0 && !ctsFailed && unchanged(this`nav, this`backoff)
      ensures poll.cts.Some? && poll.cts.value.rxAdd != myMac ==>
                state.Idle? && nav == UpdateNav(poll.cts.value.txTime, slot, poll.elapsed)
                && unchanged(this`txAttempts, this`ctsFailed, this`backoff)
      ensures poll.cts.None? && poll.timerExpired ==>
                state.Idle? && txAttempts == old(txAttempts) + 1 && ctsFailed
                && RetryBounds(old(txAttempts) + 1, backoff) && unchanged(this`nav)
      ensures poll.cts.None? && !poll.timerExpired ==> unchanged(this)
    {
      if poll.cts.Some? {
        var c := poll.cts.value;
        if c.rxAdd == myMac {
          state := TransmittingUnicast;
          txAttempts := 0;
          ctsFailed := false;
        } else {
          state := Idle;
          nav := UpdateNav(c.txTime, slot, poll.elapsed);
        }
      } else if poll.timerExpired {
        txAttempts := txAttempts + 1;
        DrawBackoff(txAttempts);
        state := Idle;
        ctsFailed := true;
      }
    }

    /** TRANSMITTING_FRAGMENTED_PACKET: the first pass splits the payload;
        each later pass sends the head fragment (DATA_FRAG while more
        remain, DATA for the last) with the current sequence and fragment
        numbers.  The sequence number goes up by one without wrapping. */
    method StepTransmittingFragmentedPacket(poll: Poll)
      requires Valid() && WellFormedPoll(poll) && !halted && state.TransmittingFragmentedPacket?
      modifies this`fragments, this`firstTimeFg, this`nSeq, this`nFrag, this`state, this`trace,
               this`lastFragmentSent
      ensures Valid()
      ensures Grows()
      ensures old(firstTimeFg) ==>
                fragments == Fragment(payload, FragmentationThreshold) && !firstTimeFg
                && unchanged(this`nSeq, this`nFrag, this`state, this`trace, this`lastFragmentSent)
      ensures !old(firstTimeFg) && |old(fragments)| > 1 ==>
                nSeq == old(nSeq) + 1 && nFrag == old(nFrag) + 1 && fragments == old(fragments)[1..]
                && !lastFragmentSent && state.WaitAckFragmented? && unchanged(this`firstTimeFg)
                && trace == old(trace) + [SentFrame("DATA_FRAG", DataRequest(old(fragments)[0], destMac, myMac,
                                                    old(nSeq), old(nFrag), poll.now), encoding, poll.now)]
      ensures !old(firstTimeFg) && |old(fragments)| <= 1 ==>
                nSeq == old(nSeq) + 1 && nFrag == 0 && lastFragmentSent && state.WaitAckFragmented?
                && unchanged(this`fragments, this`firstTimeFg)
                && trace == old(trace) + [SentFrame("DATA", DataRequest(old(fragments)[0], destMac, myMac,
                                                    old(nSeq), old(nFrag), poll.now), encoding, poll.now)]
    {
      if firstTimeFg {
        fragments := Fragment(payload, FragmentationThreshold);
        firstTimeFg := false;
        return;
      }
      SendFragment(poll.now);
    }

    /** TRANSMITTING_FRAGMENTED_PACKET after the split: the head fragment
        goes out and the ACK wait begins. */
    method SendFragment(now: nat)
      requires Valid() && state.TransmittingFragmentedPacket? && !firstTimeFg
      modifies this`fragments, this`nSeq, this`nFrag, this`state, this`trace, this`lastFragmentSent
      ensures Valid()
      ensures Grows()
      ensures nSeq == old(nSeq) + 1 && state.WaitAckFragmented?
      ensures |old(fragments)| > 1 ==>
                nFrag == old(nFrag) + 1 && fragments == old(fragments)[1..] && !lastFragmentSent
                && trace == old(trace) + [SentFrame("DATA_FRAG", DataRequest(old(fragments)[0], destMac, myMac,
                                                    old(nSeq), old(nFrag), now), encoding, now)]
      ensures |old(fragments)| <= 1 ==>
                nFrag == 0 && lastFragmentSent && unchanged(this`fragments)
                && trace == old(trace) + [SentFrame("DATA", DataRequest(old(fragments)[0], destMac, myMac,
                                                    old(nSeq), old(nFrag), now), encoding, now)]
    {
      var req := DataRequest(fragments[0], destMac, myMac, nSeq, nFrag, now);
      var more := |fragments| > 1;
      trace := trace + [SentFrame(if more then "DATA_FRAG" else "DATA", req, encoding, now)];
      nSeq := nSeq + 1;
      AwaitFragmentAck(more);
    }

    /** After a fragment went out: wait for its ACK, and move the fragment
        number and the list of fragments on unless it was the last one. */
    method AwaitFragmentAck(more: bool)
      requires Valid() && state.TransmittingFragmentedPacket? && !firstTimeFg && (more <==> |fragments| > 1)
      modifies this`fragments, this`nFrag, this`state, this`lastFragmentSent
      ensures Valid() && state.WaitAckFragmented? && lastFragmentSent == !more
      ensures more ==> nFrag == old(nFrag) + 1 && fragments == old(fragments)[1..]
      ensures !more ==> nFrag == 0 && fragments == old(fragments)
    {
      assert !firstTx;
      state := WaitAckFragmented;
      lastFragmentSent := !more;
      if more {
        nFrag := nFrag + 1;
        fragments := fragments[1..];
      } else {
        nFrag := 0;
      }
    }

    /** WAIT_ACK_FRAGMENTED: each ACK clears the backoff and asks for the
        next fragment, or ends the payload after the last one; a timeout
        drops the payload (fragments are never retransmitted). */
    method StepWaitAckFragmented(poll: Poll)
      requires Valid() && WellFormedPoll(poll) && !halted && state.WaitAckFragmented?
      modifies this`state, this`trace, this`firstTx, this`backoff
      ensures Valid()
      ensures Grows()
      ensures poll.ack.Some? && lastFragmentSent ==>
                state.Idle? && firstTx && backoff == 0 && trace == old(trace) + [RemovedFromBuffer]
      ensures poll.ack.Some? && !lastFragmentSent ==>
                state.TransmittingFragmentedPacket? && backoff == 0 && unchanged(this`trace, this`firstTx)
      ensures poll.ack.None? && poll.timerExpired ==>
                state.Idle? && firstTx && trace == old(trace) + [RemovedFromBuffer] && unchanged(this`backoff)
      ensures poll.ack.None? && !poll.timerExpired ==> unchanged(this)
    {
      if poll.ack.Some? {
        if lastFragmentSent {
          state := Idle;
          trace := trace + [RemovedFromBuffer];
          firstTx := true;
        } else {
          state := TransmittingFragmentedPacket;
        }
        backoff := 0;
      } else if poll.timerExpired {
        state := Idle;
        trace := trace + [RemovedFromBuffer];
        firstTx := true;
      }
    }

    /** data_sel on the configured controller, when there is one: the new
        rate is one of the 8 rates.  With Minstrel's counter full the call
        raises and the process dies, the rate unchanged. */
    method AdaptRate(success: bool)
      requires Valid() && ControllersValid()
      modifies this`encoding, this`trace, this`halted, Controllers()
      ensures Valid() && ControllersValid()
      ensures halted <==> old(halted) || old(CounterFull())
      ensures trace == old(trace) + RateCall(old(encoding), success, encoding, old(CounterFull()))
      ensures rc.NoController? || old(CounterFull()) ==> encoding == old(encoding)
      ensures rc.Minstrel? && !old(CounterFull()) ==> RateAdapt.IsBestRate(rc.m.stats, encoding)
      ensures rc.Aarf? && success ==> old(encoding) <= encoding <= old(encoding) + 1
      ensures rc.Aarf? && !success ==> encoding <= old(encoding) <= encoding + 1
    {
      match rc {
        case NoController =>
        case Minstrel(m) =>
          if m.total >= RateAdapt.MaxTotalPackets {
            halted := true;
          } else {
            AdaptMinstrel(success);
          }
        case Aarf(_) => AdaptAarf(success);
      }
    }

    /** data_sel on the Minstrel controller: the new rate has the best
        throughput in its table. */
    method AdaptMinstrel(success: bool)
      requires Valid() && ControllersValid() && rc.Minstrel? && rc.m.total < RateAdapt.MaxTotalPackets
      modifies this`encoding, this`trace, rc.m
      ensures Valid() && ControllersValid()
      ensures trace == old(trace) + [RateSelected(old(encoding), success, encoding)]
      ensures RateAdapt.IsBestRate(rc.m.stats, encoding)
    {
      var next := rc.m.Update(encoding, success);
      SetRate(success, next);
    }

    /** The rate the controller chose becomes the current one, and the call
        is recorded. */
    method SetRate(success: bool, next: nat)
      requires Valid() && next < 8
      modifies this`encoding, this`trace
      ensures Valid() && encoding == next
      ensures trace == old(trace) + [RateSelected(old(encoding), success, next)]
    {
      trace := trace + [RateSelected(encoding, success, next)];
      encoding := next;
    }

    /** data_sel on the AARF controller: the new rate is at most one step
        from the old, up after a success and down after a failure. */
    method AdaptAarf(success: bool)
      requires Valid() && ControllersValid() && rc.Aarf?
      modifies this`encoding, this`trace, rc.a
      ensures Valid() && ControllersValid()
      ensures trace == old(trace) + [RateSelected(old(encoding), success, encoding)]
      ensures success ==> old(encoding) <= encoding <= old(encoding) + 1
      ensures !success ==> encoding <= old(encoding) <= encoding + 1
    {
      var next := rc.a.Update(encoding, success);
      SetRate(success, next);
    }

    /** WAITING_FOR_ACK, an ACK at hand: the payload is done (removed from
        the buffer, backoff cleared, the next payload starts afresh) and the
        rate controller hears of a success. */
    method OnAck()
      requires Valid() && ControllersValid() && !halted && state.WaitingForAck?
      modifies this`state, this`backoff, this`trace, this`firstTx, this`encoding, this`halted, Controllers()
      ensures Valid() && ControllersValid()
      ensures Grows()
      ensures state.Idle? && backoff == 0 && firstTx
      ensures halted <==> old(CounterFull())
      ensures trace == old(trace) + [RemovedFromBuffer] + RateCall(old(encoding), true, encoding, halted)
    {
      FinishPayload();
      AdaptRate(true);
    }

    /** The bookkeeping of an ACK, before the rate controller hears of it:
        back to IDLE with the payload removed and the backoff cleared. */
    method FinishPayload()
      requires Valid() && state.WaitingForAck?
      modifies this`state, this`backoff, this`trace, this`firstTx
      ensures Valid()
      ensures state.Idle? && backoff == 0 && firstTx && trace == old(trace) + [RemovedFromBuffer]
    {
      state := Idle;
      backoff := 0;
      trace := trace + [RemovedFromBuffer];
      firstTx := true;
    }

    /** WAITING_FOR_ACK, timer expired: a retry is spent and the payload is
        dropped when none is left, which happens exactly at its
        (retx_max + 1)-th unanswered send, or at once when retransmissions
        are disabled.  Every timeout reports a failure to the rate
        controller. */
    method OnAckTimeout()
      requires Valid() && ControllersValid() && !halted && state.WaitingForAck?
      modifies this`state, this`trace, this`firstTx, this`retxRetries, this`nFrag, this`failTx, this`encoding,
               this`halted, Controllers()
      ensures Valid() && ControllersValid()
      ensures Grows()
      ensures state.Idle?
      ensures retxMax != 0 && old(retxRetries) > 0 ==>
                retxRetries == old(retxRetries) - 1 && failTx && trace == old(trace) + RateCall(old(encoding), false, encoding, halted)
                && unchanged(this`firstTx, this`nFrag)
      ensures retxMax != 0 && old(retxRetries) <= 0 ==>
                retxRetries == old(retxRetries) - 1 && firstTx && nFrag == 0 && !failTx
                && trace == old(trace) + [RemovedFromBuffer] + RateCall(old(encoding), false, encoding, halted)
      ensures retxMax == 0 ==>
                firstTx && trace == old(trace) + [RemovedFromBuffer] + RateCall(old(encoding), false, encoding, halted)
                && unchanged(this`retxRetries, this`nFrag, this`failTx)
      ensures halted <==> old(CounterFull())
      ensures old(sends) <= retxMax + 1
      ensures firstTx <==> old(sends) == retxMax + 1
    {
      SpendRetry();
      AdaptRate(false);
    }

    /** The retry bookkeeping of an ACK timeout, before the rate controller
        hears of it: back to IDLE with one retry fewer, the payload dropped
        once the retries are exhausted or when retransmissions are
        disabled. */
    method SpendRetry()
      requires Valid() && state.WaitingForAck?
      modifies this`state, this`trace, this`firstTx, this`retxRetries, this`nFrag, this`failTx
      ensures Valid()
      ensures Grows()
      ensures state.Idle?
      ensures retxMax != 0 && old(retxRetries) > 0 ==>
                retxRetries == old(retxRetries) - 1 && failTx && unchanged(this`trace, this`firstTx, this`nFrag)
      ensures retxMax != 0 && old(retxRetries) <= 0 ==>
                retxRetries == old(retxRetries) - 1 && firstTx && nFrag == 0 && !failTx
                && trace == old(trace) + [RemovedFromBuffer]
      ensures retxMax == 0 ==>
                firstTx && trace == old(trace) + [RemovedFromBuffer] && unchanged(this`retxRetries, this`nFrag, this`failTx)
      ensures old(sends) <= retxMax + 1
      ensures firstTx <==> old(sends) == retxMax + 1
    {
      state := Idle;
      if retxMax != 0 {
        retxRetries := retxRetries - 1;
        if retxRetries < 0 {
          trace := trace + [RemovedFromBuffer];
          firstTx := true;
          nFrag := 0;
          failTx := false;
        } else {
          failTx := true;
        }
      } else {
        trace := trace + [RemovedFromBuffer];
        firstTx := true;
      }
    }

    /** TRANSMITTING_CTS: once the NAV has run down, the CTS goes to the
        station whose RTS was received. */
    method StepTransmittingCts(poll: Poll)
      requires Valid() && WellFormedPoll(poll) && !halted && state.TransmittingCts?
      modifies this`nav, this`state, this`trace
      ensures Valid()
      ensures Grows()
      ensures nav == UpdateNav(old(nav), slot, poll.elapsed)
      ensures nav > 0 ==> state.TransmittingCts? && trace == old(trace)
      ensures nav <= 0 ==> state.WaitingForData? && trace == old(trace) + [SentCts(destMac)]
    {
      nav := UpdateNav(nav, slot, poll.elapsed);
      if nav > 0 {
        state := TransmittingCts;
      } else {
        state := WaitingForData;
        trace := trace + [SentCts(destMac)];
      }
    }

    /** WAITING_FOR_DATA: a frame with "MF" 0 outside a fragment run is
        handed up and acknowledged; a frame with "MF" non-zero is buffered
        and acknowledged; the frame that ends a run delivers the buffer plus
        its payload only when its fragment number plus one equals the
        fragments counted.  Because "MF" holds the fragment number, a frame
        ending a run has fragment number 0 while at least two fragments are
        counted, so that delivery never happens: the run is dropped without
        an ACK. */
    method StepWaitingForData(poll: Poll)
      requires Valid() && WellFormedPoll(poll) && !halted && state.WaitingForData?
      modifies this`state, this`ackAddr, this`fragCount, this`trace, this`fragmenting, this`reass
      ensures Valid()
      ensures Grows()
      ensures poll.data.Some? && poll.data.value.mf == 0 && !old(fragmenting) ==>
                state.TransmittingAck? && ackAddr == poll.data.value.add2 && fragCount == 0
                && trace == old(trace) + [Delivered(poll.data.value.payload)]
                && unchanged(this`fragmenting, this`reass)
      ensures poll.data.Some? && poll.data.value.mf == 0 && old(fragmenting) ==>
                poll.data.value.nFrag + 1 != old(fragCount) + 1
                && ackAddr == poll.data.value.add2 && fragCount == 0 && !fragmenting && unchanged(this`reass)
                && state == (if poll.timerExpired then Idle else WaitingForData) && trace == old(trace)
      ensures poll.data.Some? && poll.data.value.mf != 0 ==>
                state.TxAckFg? && ackAddr == poll.data.value.add2 && fragmenting
                && fragCount == old(fragCount) + 1 && reass == old(reass) + poll.data.value.payload
                && trace == old(trace)
      ensures poll.data.None? ==>
                state == (if poll.timerExpired then Idle else WaitingForData)
                && unchanged(this`ackAddr, this`fragCount, this`trace, this`fragmenting, this`reass)
    {
      if poll.data.None? {
        if poll.timerExpired {
          state := Idle;
        }
        return;
      }
      var x := poll.data.value;
      if x.mf != 0 {
        ReceiveFragment(x);
      } else if fragmenting {
        EndFragmentRun(x, poll.timerExpired);
      } else {
        ReceiveWhole(x);
      }
    }

    /** WAITING_FOR_DATA, a frame with "MF" 0 outside a run: handed up, an
        ACK to its sender due. */
    method ReceiveWhole(x: Info)
      requires Valid() && state.WaitingForData? && !fragmenting && x.DataInfo?
      modifies this`state, this`ackAddr, this`fragCount, this`trace
      ensures Valid()
      ensures Grows()
      ensures state.TransmittingAck? && ackAddr == x.add2 && fragCount == 0
      ensures trace == old(trace) + [Delivered(x.payload)]
    {
      ackAddr := x.add2;
      state := TransmittingAck;
      fragCount := 0;
      trace := trace + [Delivered(x.payload)];
    }

    /** WAITING_FOR_DATA, a frame with "MF" 0 ending a run: the run is
        counted and closed; the delivery its fragment number would have to
        match is out of reach, so nothing is handed up and no ACK is due. */
    method EndFragmentRun(x: Info, expired: bool)
      requires Valid() && state.WaitingForData? && fragmenting && WellFormedData(x) && x.mf == 0
      modifies this`state, this`ackAddr, this`fragCount, this`fragmenting
      ensures Valid()
      ensures Grows()
      ensures x.nFrag + 1 != old(fragCount) + 1
      ensures ackAddr == x.add2 && fragCount == 0 && !fragmenting
      ensures state == (if expired then Idle else WaitingForData)
    {
      ackAddr := x.add2;
      fragmenting := false;
      fragCount := fragCount + 1;
      if x.nFrag + 1 == fragCount {
        // The delivery of data_temp_reass plus the payload: x.nFrag is
        // x.mf, which is 0, while fragCount is at least 2 here.
        assert false;
      }
      fragCount := 0;
      if expired {
        state := Idle;
      }
    }

    /** WAITING_FOR_DATA, a frame with "MF" non-zero: its payload joins the
        reassembly buffer and an ACK for the fragment is due. */
    method ReceiveFragment(x: Info)
      requires Valid() && state.WaitingForData? && x.DataInfo? && x.mf != 0
      modifies this`state, this`ackAddr, this`fragCount, this`fragmenting, this`reass
      ensures Valid()
      ensures Grows()
      ensures state.TxAckFg? && ackAddr == x.add2 && fragmenting
      ensures fragCount == old(fragCount) + 1 && reass == old(reass) + x.payload
    {
      ackAddr := x.add2;
      state := TxAckFg;
      fragmenting := true;
      fragCount := fragCount + 1;
      reass := reass + x.payload;
    }

    /** TX_ACK_FG: acknowledge a fragment (an ACK with duration 0 to
        `ackAddr`, at the control rate) and wait for the next one. */
    method StepTxAckFg(poll: Poll)
      requires Valid() && WellFormedPoll(poll) && !halted && state.TxAckFg?
      modifies this`state, this`trace
      ensures Valid()
      ensures Grows()
      ensures state.WaitingForData? && trace == old(trace) + [SentFrame("ACK", ControlRequest(0, ackAddr, None, poll.now), ControlEncoding, poll.now)]
    {
      state := WaitingForData;
      trace := trace + [SentFrame("ACK", ControlRequest(0, ackAddr, None, poll.now), ControlEncoding, poll.now)];
    }

    /** TRANSMITTING_ACK: acknowledge the DATA frame just handed up with an
        ACK of duration 0 to `ackAddr`, at the control rate. */
    method StepTransmittingAck(poll: Poll)
      requires Valid() && WellFormedPoll(poll) && !halted && state.TransmittingAck?
      modifies this`state, this`trace
      ensures Valid()
      ensures Grows()
      ensures state.Idle? && trace == old(trace) + [SentFrame("ACK", ControlRequest(0, ackAddr, None, poll.now), ControlEncoding, poll.now)]
    {
      state := Idle;
      trace := trace + [SentFrame("ACK", ControlRequest(0, ackAddr, None, poll.now), ControlEncoding, poll.now)];
    }
  }
}
