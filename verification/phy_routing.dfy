/** The PHY side of the MAC/PHY interface (phy_wifi.py): the receive thread
    that parses every frame arriving from the air and files it in the
    queue of its kind, the neighbour (beacon) list it keeps, and the answer
    the request thread gives when the MAC asks for the next frame of a
    kind (a TAIL request).  The queues are shared by the two threads; here
    each operation is one atomic step on them. */
module PhyRouting {
  import opened Wrappers
  import opened MacUtils
  import MacUtilsProofs
  import Dcf

  /** One line of the neighbour list, built from a received beacon: the
      sender's address, its SSID, the timestamp and Beacon Interval it
      carried, and the local clock minus that timestamp. */
  datatype BeaconEntry = BeaconEntry(mac: bytes, ssid: bytes, timestamp: nat, bi: nat, offset: int)

  /** Where the receive loop files a parsed frame. */
  datatype Destination = ToData | ToOther | ToAck | ToRts | ToCts | ToBeacons | Dropped

  /** The routing rule of the receive loop: DATA and DATA_FRAG frames for this
      node go to `data`, other DATA and DATA_FRAG frames to `other`; an ACK is
      kept only when it is addressed to this node; every RTS and CTS is kept
      whoever it is for; beacons update the neighbour list; anything else,
      DATA_RETX included, is skipped. */
  function Route(myMac: bytes, p: Parsed): (d: Destination)
    ensures d == ToData <==> p.header in {Data, DataFrag} && p.info.DataInfo? && p.info.add1 == myMac
    ensures d == ToOther <==> p.header in {Data, DataFrag} && !(p.info.DataInfo? && p.info.add1 == myMac)
    ensures d == ToAck <==> p.header == Ack && p.info.AckInfo? && p.info.rxAdd == myMac
    ensures d == ToRts <==> p.header == Rts
    ensures d == ToCts <==> p.header == Cts
    ensures d == ToBeacons <==> p.header == Beacon
    ensures d == Dropped <==> p.header in {NoHeader, DataRetx} || (p.header == Ack && !(p.info.AckInfo? && p.info.rxAdd == myMac))
  {
    match p.header
    case Data | DataFrag => if p.info.DataInfo? && p.info.add1 == myMac then ToData else ToOther
    case Ack => if p.info.AckInfo? && p.info.rxAdd == myMac then ToAck else Dropped
    case Rts => ToRts
    case Cts => ToCts
    case Beacon => ToBeacons
    case _ => Dropped
  }

  // ---------------------------------------------------------------------
  // The neighbour list
  // ---------------------------------------------------------------------

  /** The position of the first entry for `mac`, or |s| when there is none. */
  function FirstWithMac(s: seq<BeaconEntry>, mac: bytes): (i: nat)
    ensures i <= |s|
    ensures forall j :: 0 <= j < i ==> s[j].mac != mac
    ensures i < |s| ==> s[i].mac == mac
  {
    if s == [] then 0
    else if s[0].mac == mac then 0
    else 1 + FirstWithMac(s[1..], mac)
  }

  /** The neighbour list after a beacon: the update loop takes entries from
      the front and puts them back at the end until it meets the sender's
      entry, which it replaces by the new one at the end; when the sender is
      not in the list, the whole list goes round once and the new entry is
      appended. */
  function BeaconListUpdate(s: seq<BeaconEntry>, msg: BeaconEntry): (r: seq<BeaconEntry>)
  {
    var i := FirstWithMac(s, msg.mac);
    if i < |s| then s[i + 1..] + s[..i] + [msg] else s + [msg]
  }

  /** No two entries of the list share an address. */
  ghost predicate OnePerMac(s: seq<BeaconEntry>)
  {
    forall i, j :: 0 <= i < j < |s| ==> s[i].mac != s[j].mac
  }

  /** The new entry ends the list; the sender's old entry, if any, is the one
      entry that goes; every other entry stays, as a multiset. */
  lemma BeaconUpdateContents(s: seq<BeaconEntry>, msg: BeaconEntry)
    ensures var r := BeaconListUpdate(s, msg);
            var i := FirstWithMac(s, msg.mac);
            |r| > 0 && r[|r| - 1] == msg
            && (i < |s| ==> multiset(r) == multiset(s) - multiset{s[i]} + multiset{msg} && |r| == |s|)
            && (i == |s| ==> multiset(r) == multiset(s) + multiset{msg} && |r| == |s| + 1)
  {
    var i := FirstWithMac(s, msg.mac);
    if i < |s| {
      assert s == s[..i] + [s[i]] + s[i + 1..];
      calc {
        multiset(s[i + 1..] + s[..i] + [msg]);
        multiset(s[i + 1..]) + multiset(s[..i]) + multiset{msg};
        multiset(s) - multiset{s[i]} + multiset{msg};
      }
    }
  }

  /** The update keeps at most one entry per address, and the sender's entry
      is then the new one. */
  lemma BeaconUpdateOnePerMac(s: seq<BeaconEntry>, msg: BeaconEntry)
    requires OnePerMac(s)
    ensures var r := BeaconListUpdate(s, msg);
            OnePerMac(r) && forall k :: 0 <= k < |r| && r[k].mac == msg.mac ==> r[k] == msg
  {
    var i := FirstWithMac(s, msg.mac);
    var r := BeaconListUpdate(s, msg);
    if i < |s| {
      var rest := s[i + 1..] + s[..i];
      RotationEntries(s, i);
      forall a, b | 0 <= a < b < |r|
        ensures r[a].mac != r[b].mac
      {
        if b < |rest| {
          assert r[a] == s[RotatedIndex(|s|, i, a)] && r[b] == s[RotatedIndex(|s|, i, b)];
        } else {
          assert r[a] == s[RotatedIndex(|s|, i, a)];
        }
      }
      forall k | 0 <= k < |rest|
        ensures rest[k].mac != msg.mac
      {
        assert rest[k] == s[RotatedIndex(|s|, i, k)];
      }
      assert forall k :: 0 <= k < |r| - 1 ==> r[k] == rest[k];
    }
  }

  /** The list s turned round by k places, turned once more. */
  lemma RotateOnce(s: seq<BeaconEntry>, k: nat)
    requires k < |s|
    ensures var q := s[k..] + s[..k];
            q[0] == s[k] && q[1..] == s[k + 1..] + s[..k] && q[1..] + [q[0]] == s[k + 1..] + s[..k + 1]
  {
    var q := s[k..] + s[..k];
    assert q[1..] == s[k + 1..] + s[..k];
    assert s[..k + 1] == s[..k] + [s[k]];
  }

  /** Where entry t of the rotated list s[i+1..] + s[..i] came from. */
  function RotatedIndex(n: nat, i: nat, t: nat): (j: nat)
    requires i < n && t < n - 1
    ensures j < n && j != i
  {
    if t < n - i - 1 then i + 1 + t else t - (n - i - 1)
  }

  lemma RotationEntries(s: seq<BeaconEntry>, i: nat)
    requires i < |s|
    ensures var rest := s[i + 1..] + s[..i];
            |rest| == |s| - 1
            && (forall t :: 0 <= t < |rest| ==> rest[t] == s[RotatedIndex(|s|, i, t)])
            && (forall a, b :: 0 <= a < b < |rest| ==> RotatedIndex(|s|, i, a) != RotatedIndex(|s|, i, b))
  {
  }

  // ---------------------------------------------------------------------
  // The queues
  // ---------------------------------------------------------------------

  /** The answer to a TAIL request: YES with a frame taken from a queue, YES
      with a number (the node identifier or the sampling rate), or NO with
      nothing. */
  datatype TailReply = YesFrame(frame: Info) | YesNumber(value: int) | No

  /** The kinds a TAIL request can name. */
  datatype TailKind = DataKind | AckKind | RtsKind | CtsKind | NodeKind | SampRateKind | OtherKind

  function KindNamed(request: string): (k: TailKind)
    ensures k == DataKind <==> request == "DATA"
    ensures k == AckKind <==> request == "ACK"
    ensures k == RtsKind <==> request == "RTS"
    ensures k == CtsKind <==> request == "CTS"
    ensures k == NodeKind <==> request == "NODE"
    ensures k == SampRateKind <==> request == "SAMP_RATE"
    ensures k == OtherKind <==> request !in {"DATA", "ACK", "RTS", "CTS", "NODE", "SAMP_RATE"}
  {
    if request == "DATA" then DataKind
    else if request == "ACK" then AckKind
    else if request == "RTS" then RtsKind
    else if request == "CTS" then CtsKind
    else if request == "NODE" then NodeKind
    else if request == "SAMP_RATE" then SampRateKind
    else OtherKind
  }

  class PhyQueues {
    /** The receive thread's own address. */
    const myMac: bytes
    /** The node identifier and sampling rate the request thread reports. */
    const node: int
    const sampRate: int
    /** The receive loop's beacon-printing option. */
    const printBeacon: bool

    var data: seq<Info>
    var ack: seq<Info>
    var rts: seq<Info>
    var cts: seq<Info>
    /** The `other` queue only ever receives the same placeholder string, so
        its length is all there is to it. */
    var other: nat
    var bcn: seq<BeaconEntry>
    /** The receive thread has ended on an exception from parse_mac. */
    var dead: bool

    /** Each queue holds frames of its own kind only: DATA frames are for this
        node and read as parse_mac reads them, ACKs are for this node, and
        the neighbour list has one entry per address. */
    ghost predicate Valid()
      reads this`data, this`ack, this`rts, this`cts, this`bcn
    {
      QueuesOk() && OnePerMac(bcn)
    }

    ghost predicate QueuesOk()
      reads this`data, this`ack, this`rts, this`cts
    {
      |myMac| == 6
      && (forall k :: 0 <= k < |data| ==> Dcf.WellFormedData(data[k]) && data[k].add1 == myMac)
      && (forall k :: 0 <= k < |ack| ==> ack[k].AckInfo? && ack[k].rxAdd == myMac)
      && (forall k :: 0 <= k < |rts| ==> rts[k].RtsInfo?)
      && (forall k :: 0 <= k < |cts| ==> cts[k].CtsInfo?)
    }

    constructor(mac: bytes, nodeId: int, rate: int, printBeacons: bool)
      requires |mac| == 6
      ensures Valid()
      ensures myMac == mac && node == nodeId && sampRate == rate && printBeacon == printBeacons
      ensures data == [] && ack == [] && rts == [] && cts == [] && other == 0 && bcn == [] && !dead
    {
      myMac := mac;
      node := nodeId;
      sampRate := rate;
      printBeacon := printBeacons;
      data, ack, rts, cts := [], [], [], [];
      other := 0;
      bcn := [];
      dead := false;
    }

    /** One pass of the receive loop: parse the frame and file it.  A frame
        parse_mac cannot read ends the thread, and an ended thread files
        nothing more. */
    method Receive(pkt: bytes, now: int)
      requires Valid()
      modifies this`data, this`ack, this`rts, this`cts, this`other, this`bcn, this`dead
      ensures Valid()
      ensures dead <==> old(dead) || ParseMac(pkt).Err?
      ensures old(dead) || ParseMac(pkt).Err? ==>
                data == old(data) && ack == old(ack) && rts == old(rts) && cts == old(cts)
                && other == old(other) && bcn == old(bcn)
      ensures !old(dead) && ParseMac(pkt).Ok? ==> Filed(ParseMac(pkt).value, now, old(data), old(ack), old(rts),
                                                        old(cts), old(other), old(bcn))
    {
      if dead {
        return;
      }
      var parsed := ParseMac(pkt);
      if parsed.Err? {
        dead := true;
        return;
      }
      ParsedKinds(pkt);
      File(parsed.value, now);
    }

    /** The state after frame p, received at `now`, was filed into the queues
        that held the given contents: only the queue Route chooses grows, by
        the frame, and a beacon updates the neighbour list. */
    ghost predicate Filed(p: Parsed, now: int, data0: seq<Info>, ack0: seq<Info>, rts0: seq<Info>,
                          cts0: seq<Info>, other0: nat, bcn0: seq<BeaconEntry>)
      reads this`data, this`ack, this`rts, this`cts, this`other, this`bcn
    {
      var d := Route(myMac, p);
      data == data0 + (if d == ToData then [p.info] else [])
      && other == other0 + (if d == ToOther then 1 else 0)
      && ack == ack0 + (if d == ToAck then [p.info] else [])
      && rts == rts0 + (if d == ToRts then [p.info] else [])
      && cts == cts0 + (if d == ToCts then [p.info] else [])
      && bcn == (if d == ToBeacons && p.info.BeaconInfo?
                 then BeaconListUpdate(bcn0, BeaconEntry(p.info.add2, p.info.ssid, p.info.timestamp, p.info.bi,
                                                         now - p.info.timestamp))
                 else bcn0)
    }

    /** The routing part of the loop, for a frame parse_mac read. */
    method File(p: Parsed, now: int)
      requires Valid() && KindsAgree(p)
      modifies this`data, this`ack, this`rts, this`cts, this`other, this`bcn
      ensures Valid()
      ensures Filed(p, now, old(data), old(ack), old(rts), old(cts), old(other), old(bcn))
    {
      var d := Route(myMac, p);
      if d == Dropped {
        return;
      }
      if d == ToBeacons {
        var e := BeaconEntry(p.info.add2, p.info.ssid, p.info.timestamp, p.info.bi, now - p.info.timestamp);
        BeaconUpdateOnePerMac(bcn, e);
        UpdateBeacons(e);
      } else {
        Enqueue(p, d);
      }
      if printBeacon {
        RotateBeacons();
      }
    }

    /** Filing a frame that is not a beacon: one queue grows by it. */
    method Enqueue(p: Parsed, d: Destination)
      requires QueuesOk() && KindsAgree(p) && d == Route(myMac, p) && d !in {Dropped, ToBeacons}
      modifies this`data, this`ack, this`rts, this`cts, this`other
      ensures QueuesOk()
      ensures data == old(data) + (if d == ToData then [p.info] else [])
      ensures other == old(other) + (if d == ToOther then 1 else 0)
      ensures ack == old(ack) + (if d == ToAck then [p.info] else [])
      ensures rts == old(rts) + (if d == ToRts then [p.info] else [])
      ensures cts == old(cts) + (if d == ToCts then [p.info] else [])
    {
      if d == ToData {
        data := data + [p.info];
      } else if d == ToOther {
        other := other + 1;
      } else if d == ToAck {
        ack := ack + [p.info];
      } else if d == ToRts {
        rts := rts + [p.info];
      } else {
        cts := cts + [p.info];
      }
    }

    /** The neighbour-list update loop, rotating the queue in place. */
    method UpdateBeacons(msg: BeaconEntry)
      modifies this`bcn
      ensures bcn == BeaconListUpdate(old(bcn), msg)
    {
      ghost var s := bcn;
      ghost var i := FirstWithMac(s, msg.mac);
      ghost var k := 0;
      var x := |bcn|;
      while x > 0
        invariant 0 <= x <= |s| && k == |s| - x && k <= i
        invariant bcn == s[k..] + s[..k]
      {
        RotateOnce(s, k);
        var tmp := bcn[0];
        bcn := bcn[1..];
        if msg.mac != tmp.mac {
          bcn := bcn + [tmp];
          x := x - 1;
          k := k + 1;
        } else {
          assert i == k;
          bcn := bcn + [msg];
          return;
        }
      }
      assert s[..|s|] == s && i == |s|;
      bcn := bcn + [msg];
    }

    /** The printing loop: every entry is taken from the front and put back
        at the end, once each, which leaves the list as it was. */
    method RotateBeacons()
      modifies this`bcn
      ensures bcn == old(bcn)
    {
      ghost var s := bcn;
      ghost var k := 0;
      var x := |bcn|;
      while x > 0
        invariant 0 <= x <= |s| && k == |s| - x
        invariant bcn == s[k..] + s[..k]
      {
        RotateOnce(s, k);
        var item := bcn[0];
        bcn := bcn[1..] + [item];
        x := x - 1;
        k := k + 1;
      }
      assert s[..|s|] == s;
    }

    /** The answer to a TAIL request: the head of the named queue when it has
        one, the node identifier or the sampling rate when those are asked
        for, and NO otherwise. */
    method Tail(request: string) returns (reply: TailReply)
      requires Valid()
      modifies this`data, this`ack, this`rts, this`cts
      ensures Valid()
      ensures reply.YesFrame? ==> FrameOfKind(KindNamed(request), reply.frame, myMac)
      ensures var k := KindNamed(request);
              match k
              case DataKind => QueueAnswer(old(data), data, reply) && ack == old(ack) && rts == old(rts) && cts == old(cts)
              case AckKind => QueueAnswer(old(ack), ack, reply) && data == old(data) && rts == old(rts) && cts == old(cts)
              case RtsKind => QueueAnswer(old(rts), rts, reply) && data == old(data) && ack == old(ack) && cts == old(cts)
              case CtsKind => QueueAnswer(old(cts), cts, reply) && data == old(data) && ack == old(ack) && rts == old(rts)
              case NodeKind => reply == YesNumber(node) && Unmoved(old(data), old(ack), old(rts), old(cts))
              case SampRateKind => reply == YesNumber(sampRate) && Unmoved(old(data), old(ack), old(rts), old(cts))
              case OtherKind => reply == No && Unmoved(old(data), old(ack), old(rts), old(cts))
    {
      match KindNamed(request)
      case DataKind =>
        if data != [] { reply := YesFrame(data[0]); data := data[1..]; } else { reply := No; }
      case AckKind =>
        if ack != [] { reply := YesFrame(ack[0]); ack := ack[1..]; } else { reply := No; }
      case RtsKind =>
        if rts != [] { reply := YesFrame(rts[0]); rts := rts[1..]; } else { reply := No; }
      case CtsKind =>
        if cts != [] { reply := YesFrame(cts[0]); cts := cts[1..]; } else { reply := No; }
      case NodeKind => reply := YesNumber(node);
      case SampRateKind => reply := YesNumber(sampRate);
      case OtherKind => reply := No;
    }

    ghost predicate Unmoved(d: seq<Info>, a: seq<Info>, r: seq<Info>, c: seq<Info>)
      reads this`data, this`ack, this`rts, this`cts
    {
      data == d && ack == a && rts == r && cts == c
    }
  }

  /** The frame dictionary matches the header, as parse_mac builds it. */
  predicate KindsAgree(p: Parsed)
  {
    (p.header in {Data, DataFrag, DataRetx} ==> Dcf.WellFormedData(p.info))
    && (p.header == Ack ==> p.info.AckInfo?)
    && (p.header == Rts ==> p.info.RtsInfo?)
    && (p.header == Cts ==> p.info.CtsInfo?)
    && (p.header == Beacon ==> p.info.BeaconInfo?)
  }

  /** Everything parse_mac returns has a dictionary of its header's kind. */
  lemma ParsedKinds(pkt: bytes)
    requires ParseMac(pkt).Ok?
    ensures KindsAgree(ParseMac(pkt).value)
  {
  }

  /** A frame the MAC may be handed for a request of kind k: the kind it asked
      for, and for DATA and ACK one addressed to `me`. */
  predicate FrameOfKind(k: TailKind, f: Info, me: bytes)
  {
    match k
    case DataKind => Dcf.WellFormedData(f) && f.add1 == me
    case AckKind => f.AckInfo? && f.rxAdd == me
    case RtsKind => f.RtsInfo?
    case CtsKind => f.CtsInfo?
    case _ => false
  }

  /** The answers to the four frame requests make a poll the MAC's state
      machine accepts. */
  lemma RepliesMakeWellFormedPoll(me: bytes, p: Dcf.Poll)
    requires |p.difsSamples| == 2
    requires p.data.Some? ==> FrameOfKind(DataKind, p.data.value, me)
    requires p.ack.Some? ==> FrameOfKind(AckKind, p.ack.value, me)
    requires p.rts.Some? ==> FrameOfKind(RtsKind, p.rts.value, me)
    requires p.cts.Some? ==> FrameOfKind(CtsKind, p.cts.value, me)
    ensures Dcf.WellFormedPoll(p)
  {
  }

  // ---------------------------------------------------------------------
  // Frames built by generate_pkt, as the receive loop files them
  // ---------------------------------------------------------------------

  /** A DATA, DATA_FRAG or DATA_RETX frame reaches the data queue of the node
      it is addressed to and the `other` queue of every other node; a
      DATA_RETX frame is read as DATA, since its bytes are those of DATA. */
  lemma DataFrameRouting(name: string, tSymNs: nat, encoding: int, payload: bytes, da: bytes, sa: bytes,
                         nSeq: nat, nFrag: nat, ts: int, now: nat, me: bytes)
    requires name in {"DATA", "DATA_FRAG", "DATA_RETX"}
    requires |da| == 6 && |sa| == 6
    requires GeneratePkt(name, tSymNs, encoding, DataRequest(payload, da, sa, nSeq, nFrag, ts), now).Ok?
    ensures var pkt := GeneratePkt(name, tSymNs, encoding, DataRequest(payload, da, sa, nSeq, nFrag, ts), now)
                       .value.info.packet;
            ParseMac(pkt).Ok?
            && Route(me, ParseMac(pkt).value) == (if da == me then ToData else ToOther)
            && ParseMac(pkt).value.info.payload == payload
  {
    MacUtilsProofs.DataRoundTrip(name, tSymNs, encoding, payload, da, sa, nSeq, nFrag, ts, now);
  }

  /** An ACK reaches the ack queue of the node it is addressed to and is
      dropped everywhere else. */
  lemma AckFrameRouting(tSymNs: nat, encoding: int, req: Request, now: nat, me: bytes)
    requires req.ControlRequest? && |req.macRa| == 6
    requires GeneratePkt("ACK", tSymNs, encoding, req, now).Ok?
    ensures var pkt := GeneratePkt("ACK", tSymNs, encoding, req, now).value.info.packet;
            ParseMac(pkt).Ok? && Route(me, ParseMac(pkt).value) == (if req.macRa == me then ToAck else Dropped)
  {
    MacUtilsProofs.AckRoundTrip(tSymNs, encoding, req, now);
  }

  /** A beacon is routed to the neighbour list and parses back with its
      sender and the timestamp it was sent with, which File then enters. */
  lemma BeaconFrameRouting(tSymNs: nat, encoding: int, sa: bytes, nSeq: nat, nFrag: nat, biMicros: nat,
                           now: nat, me: bytes)
    requires |sa| == 6
    requires GeneratePkt("BEACON", tSymNs, encoding, BeaconRequest(sa, nSeq, nFrag, biMicros), now).Ok?
    ensures var pkt := GeneratePkt("BEACON", tSymNs, encoding, BeaconRequest(sa, nSeq, nFrag, biMicros), now)
                       .value.info.packet;
            ParseMac(pkt).Ok? && Route(me, ParseMac(pkt).value) == ToBeacons
            && ParseMac(pkt).value.info.BeaconInfo?
            && ParseMac(pkt).value.info.add2 == sa
            && ParseMac(pkt).value.info.timestamp == (now + 1) % Pow256(8)
  {
    MacUtilsProofs.BeaconRoundTrip(tSymNs, encoding, sa, nSeq, nFrag, biMicros, now);
  }

  /** A queue answers a TAIL request first in, first out: YES with its head,
      which leaves the queue, or NO when it is empty. */
  predicate QueueAnswer(before: seq<Info>, after: seq<Info>, reply: TailReply)
  {
    if before == [] then reply == No && after == []
    else reply == YesFrame(before[0]) && after == before[1..]
  }
}
