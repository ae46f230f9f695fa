/** Where the decoder departs from the packet format: OVF and MNT, with the exact consequences. */
module PtQuirks {
  import opened Prelude
  import opened Words
  import opened IpCompression
  import opened PtDecoder
  import opened PtTheorems
  import opened PtPackets

  lemma {:induction false} WalkLater(m: seq<Byte>, past: Byte, p: nat, last: Word, k: nat)
    requires k < p <= |m| + 1
    ensures k !in Walk(m, past, p, last).visits
  {
    hide Walk, TruncatedCyc;
    WalkShape(m, past, p, last);
  }

  /**
    * OVF is two bytes long in the manual but skipped as eight.  If packets follow up to the end of the
    * buffer, the first of them is found at its own offset if and only if they occupy fewer than six bytes
    * in all, too few for the eight-byte test to succeed.
    */
  lemma {:induction false} OvfExactly(ks: seq<Packet>, past: Byte, last: Word)
    requires ks != [] && FormedAll(ks)
    ensures 2 in Walk([0x02, 0xf3] + EncodeAll(ks), past, 0, last).visits <==> |EncodeAll(ks)| < 6
  {
    hide ReadIp, CycTail, Encode, Formed, Got, LastGot;
    var s := [0x02, 0xf3] + EncodeAll(ks);
    assert s[0..] == s;
    if |EncodeAll(ks)| >= 6 {
      assert Next(s, past, last) == Advance(8, [], last);
      hide Walk;
      WalkLater(s, past, 8, last, 2);
      WalkTurn(s, past, 0, last);
    } else {
      assert Next(s, past, last) == Advance(1, [], last);
      assert s[1..][0] == 0xf3;
      assert Next(s[1..], past, last) == Advance(1, [], last);
      hide Walk;
      WalkTurn(s, past, 0, last);
      WalkTurn(s, past, 1, last);
      assert s[2..] == Encode(ks[0]) + EncodeAll(ks[1..]);
      WalkOnePacket(s, past, 2, last, ks[0], EncodeAll(ks[1..]));
    }
  }

  lemma {:induction false} WalkToEnd(m: seq<Byte>, past: Byte, p: nat, last: Word, ks: seq<Packet>)
    requires p <= |m| && m[p..] == EncodeAll(ks) && FormedAll(ks)
    ensures Walk(m, past, p, last) == Arrival(ks, p, last)
  {
    hide Next, EncodeAll, FormedAll, Offsets, GotAll, LastGotAll;
    assert m[p..] == EncodeAll(ks) + [];
    WalkFormed(m, past, p, last, ks, []);
  }

  /** The walk resumes behind the six bytes skipped and, if packets start there, decodes all of them. */
  lemma {:induction false} OvfResumes(skipped: seq<Byte>, ks: seq<Packet>, past: Byte, last: Word)
    requires |skipped| == 6 && FormedAll(ks)
    ensures Walk([0x02, 0xf3] + skipped + EncodeAll(ks), past, 0, last) ==
            Run([0], [], 0, 8, last).Then(Arrival(ks, 8, last))
  {
    hide ReadIp, CycTail, EncodeAll, FormedAll, Offsets, GotAll, LastGotAll;
    var m := [0x02, 0xf3] + skipped + EncodeAll(ks);
    assert m[0..] == m;
    assert Next(m, past, last) == Advance(8, [], last);
    WalkTurn(m, past, 0, last);
    hide Next;
    assert m[8..] == EncodeAll(ks);
    WalkToEnd(m, past, 8, last, ks);
  }

  lemma {:induction false} EncodeConcat(a: seq<Packet>, b: seq<Packet>)
    ensures EncodeAll(a + b) == EncodeAll(a) + EncodeAll(b) && ReportsAll(a + b) == ReportsAll(a) + ReportsAll(b)
    decreases |a|
  {
    hide Encode, Reports;
    if a == [] {
      assert a + b == b;
    } else {
      assert (a + b)[0] == a[0] && (a + b)[1..] == a[1..] + b;
      EncodeConcat(a[1..], b);
      assert Encode(a[0]) + (EncodeAll(a[1..]) + EncodeAll(b)) == EncodeAll(a) + EncodeAll(b);
      assert Reports(a[0]) + (ReportsAll(a[1..]) + ReportsAll(b)) == ReportsAll(a) + ReportsAll(b);
    }
  }

  lemma {:induction false} FormedConcat(a: seq<Packet>, b: seq<Packet>)
    requires FormedAll(a + b)
    ensures FormedAll(b)
  {
    hide Formed;
    assert forall i :: 0 <= i < |b| ==> b[i] == (a + b)[|a| + i];
  }

  /**
    * Packets behind an OVF that fill the six bytes exactly are lost.  Those after them are all found and log
    * one IP per IP packet, but with the last IP from before the OVF: the IPs logged are the ones they report
    * if and only if their IP lengths suit that last IP.
    */
  lemma {:induction false} OvfLosesExactly(a: seq<Packet>, b: seq<Packet>, past: Byte, last: Word)
    requires |EncodeAll(a)| == 6 && FormedAll(a + b)
    ensures var r := Walk([0x02, 0xf3] + EncodeAll(a + b), past, 0, last);
            && r.visits == [0] + Offsets(b, 8)
            && |r.ips| == |ReportsAll(b)|
            && (r.ips == ReportsAll(b) <==> LegalAll(b, last))
            && ReportsAll(a + b) == ReportsAll(a) + ReportsAll(b)
  {
    FormedConcat(a, b);
    hide EncodeAll, FormedAll, LegalAll, Offsets, ReportsAll, GotAll, LastGotAll, Walk;
    EncodeConcat(a, b);
    OvfResumes(EncodeAll(a), b, past, last);
    GotAllExactly(b, last);
    assert [0x02, 0xf3] + EncodeAll(a) + EncodeAll(b) == [0x02, 0xf3] + EncodeAll(a + b);
  }

  lemma {:induction false} FourInLane()
    ensures SignExtend48(SetLane(0, 0, 0x4)) == 0x4
  {
  }

  lemma {:induction false} ShortRead()
    ensures Read(Ip(Tip, 1, 0x1_0004), 0) == 0x4
  {
    hide SetLane;
    var s := Payload(0x1_0004, 1);
    assert s == [0x04, 0x00];
    assert Merge(s, 1, 0) == SetLane(Merge(s, 0, 0), 0, Load16(0x04, 0x00));
    assert Load16(0x04, 0x00) == 0x4;
    FourInLane();
  }

  lemma {:induction false} MovedLastIp()
    ensures Legal(Ip(Tip, 2, 0x1_0000), 0) && Legal(Ip(Tip, 1, 0x1_0004), 0x1_0000)
    ensures |Encode(Ip(Tip, 2, 0x1_0000))| == 5
  {
  }

  lemma {:induction false} LostPackets(k: Packet, l: Packet)
    requires k.Ip? && l.Ip? && Legal(k, 0) && Legal(l, k.ip)
    ensures |EncodeAll([k, Pad])| == |Encode(k)| + 1 && LegalAll([k, Pad] + [l], 0)
    ensures ReportsAll([l]) == [l.ip] && forall last :: GotAll([l], last) == [Read(l, last)]
  {
    hide Compressible, Read;
    assert [k, Pad][1..] == [Pad] && [Pad][1..] == [] && [l][1..] == [];
    assert EncodeAll([Pad]) == [0];
    assert [k, Pad] + [l] == [k, Pad, l];
    assert [k, Pad, l][1..] == [Pad, l] && [Pad, l][1..] == [l];
    assert LegalAll([l], k.ip) && LegalAll([Pad, l], k.ip);
  }

  /** Both sides occur for legal streams: here a lost TIP had moved the sender's last IP, and the address
      logged for the TIP behind it is a wrong one. */
  lemma {:induction false} OvfWrongIp(past: Byte)
    ensures var a, b := [Ip(Tip, 2, 0x1_0000), Pad], [Ip(Tip, 1, 0x1_0004)];
            && |EncodeAll(a)| == 6 && LegalAll(a + b, 0) && ReportsAll(b) == [0x1_0004]
            && Walk([0x02, 0xf3] + EncodeAll(a + b), past, 0, 0).ips == [0x4]
  {
    hide Walk, Next;
    var a, b := [Ip(Tip, 2, 0x1_0000), Pad], [Ip(Tip, 1, 0x1_0004)];
    MovedLastIp();
    LostPackets(a[0], b[0]);
    ShortRead();
    hide Encode, Legal, Read;
    LegalIsFormed(a + b, 0);
    FormedConcat(a, b);
    EncodeConcat(a, b);
    hide EncodeAll, FormedAll, LegalAll, ReportsAll, GotAll;
    OvfResumes(EncodeAll(a), b, past, 0);
    assert [0x02, 0xf3] + EncodeAll(a) + EncodeAll(b) == [0x02, 0xf3] + EncodeAll(a + b);
  }

  lemma {:induction false} ThreePads()
    ensures var pads := [Pad, Pad, Pad];
            LegalAll(pads, 0) && EncodeAll(pads) == [0, 0, 0] && ReportsAll(pads) == []
  {
    assert [Pad, Pad, Pad][1..] == [Pad, Pad] && [Pad, Pad][1..] == [Pad] && [Pad][1..] == [];
    assert EncodeAll([Pad]) == [0] && EncodeAll([Pad, Pad]) == [0, 0];
    assert ReportsAll([Pad]) == [] && ReportsAll([Pad, Pad]) == [];
    assert LegalAll([Pad], 0) && LegalAll([Pad, Pad], 0);
  }

  /** A walk that reaches the end of what follows a PSB is all there is to decode. */
  lemma {:induction false} BehindPsb(tail: seq<Byte>, past: Byte)
    requires Walk(tail, past, 0, 0).pos >= |tail|
    ensures Decode(PSB + tail, past).ips == Walk(tail, past, 0, 0).ips
  {
    hide Walk, Next;
    var m := PSB + tail;
    assert m[0..] == m && m[0..16] == PSB;
    assert PsbAt(m, 0);
    WalkOnePacket(m, past, 0, 0, Psb, tail);
    WalkShift(PSB, tail, past, 0, 0);
    assert FindPsb(m[0..]) == Some(0);
    ScanRound(m, past, 0, 0);
  }

  const LOST_IP: Word := 0x11_2233_4455

  /** The failure occurs: in this stream the TIP behind the OVF is lost. */
  lemma {:induction false} OvfLosesTip(past: Byte)
    ensures var tip := Ip(Tip, 6, LOST_IP);
            && Legal(tip, 0) && Reports(tip) == [LOST_IP]
            && Decode(PSB + ([0x02, 0xf3] + Encode(tip)), past).ips == []
  {
    hide Walk, ReadIp, CycTail;
    var tip := Ip(Tip, 6, LOST_IP);
    var skipped, pads := Encode(tip)[..6], [Pad, Pad, Pad];
    var tail := [0x02, 0xf3] + Encode(tip);
    assert Encode(tip) == [0xcd] + Store64(LOST_IP);
    assert Store64(LOST_IP) == [0x55, 0x44, 0x33, 0x22, 0x11, 0, 0, 0];
    ThreePads();
    assert LegalAll(pads, 0) && EncodeAll(pads) == [0, 0, 0] && ReportsAll(pads) == [];
    assert tail == [0x02, 0xf3] + skipped + EncodeAll(pads);
    OvfResumes(skipped, pads, past, 0);
    hide Encode, Next;
    BehindPsb(tail, past);
  }

  lemma {:induction false} ExtendedAtLeastTwo(t: seq<Byte>)
    ensures |t| >= 2 ==> Extended(t) == 0 || Extended(t) >= 2
  {
  }

  /** The byte that MNT leaves behind reads as PAD, a short TNT or a one-byte CYC. */
  predicate Unnoticed(b: Byte, rest: seq<Byte>) {
    (b & 1 == 0 && !(b == 2 && rest != [] && Extended([b] + rest) > 0)) || b & 7 == 3
  }

  lemma {:induction false} LeftoverNext(b: Byte, rest: seq<Byte>, past: Byte, last: Word)
    ensures Next([b] + rest, past, last) == Advance(1, [], last) <==> Unnoticed(b, rest)
    ensures var n := Next([b] + rest, past, last);
            n.Advance? ==> (n.ips == [] ==> n.last == last) && n.ips <= [n.last]
  {
    hide ReadIp, CycTail;
    var t := [b] + rest;
    ExtendedAtLeastTwo(t);
    CycTailBounds(t[1..], past);
    hide Extended;
    CycBits(b);
  }

  lemma {:induction false} MntNext(payload: seq<Byte>, rest: seq<Byte>, past: Byte, last: Word)
    requires |payload| == 8
    ensures var s := [0x02, 0xc3, 0x88] + payload + rest;
            && s[10..] == [payload[7]] + rest && s[11..] == rest
            && Walk(s, past, 0, last) == Run([0], [], 0, 10, last).Then(Walk(s, past, 10, last))
  {
    hide ReadIp, CycTail, Walk;
    var s := [0x02, 0xc3, 0x88] + payload + rest;
    assert s[0..] == s;
    assert s[0] == 0x02 && s[1] == 0xc3 && s[2] == 0x88;
    assert Next(s, past, last) == Advance(10, [], last);
    WalkTurn(s, past, 0, last);
  }

  /** A turn that consumes more than the leftover byte takes the walk past the first packet. */
  lemma {:induction false} Overshot(m: seq<Byte>, past: Byte, p: nat, q: nat, last: Word, ks: seq<Packet>)
    requires p + 1 <= |m| && p + 1 < q <= |m| + 1 && m[p + 1..] == EncodeAll(ks)
    ensures var w := Walk(m, past, q, last);
            [p] + w.visits != [p] + Offsets(ks, p + 1) || w.pos != p + 1 + |EncodeAll(ks)|
  {
    hide Walk, Encode, TruncatedCyc;
    WalkShape(m, past, q, last);
    var w := Walk(m, past, q, last);
    if ks != [] {
      assert ([p] + Offsets(ks, p + 1))[1] == p + 1;
      if w.visits != [] {
        assert ([p] + w.visits)[1] == w.visits[0] >= q;
      }
    }
  }

  /** A leftover byte that logs an IP makes the walk log one too many. */
  lemma {:induction false} LoggedMore(m: seq<Byte>, past: Byte, p: nat, ip: Word, last: Word, ks: seq<Packet>)
    requires p <= |m| && m[p..] == EncodeAll(ks) && FormedAll(ks)
    ensures |[ip] + Walk(m, past, p, ip).ips| == |GotAll(ks, last)| + 1
  {
    hide Walk, EncodeAll, FormedAll, GotAll, LastGotAll, Offsets;
    WalkToEnd(m, past, p, ip, ks);
    GotAllExactly(ks, ip);
    GotAllExactly(ks, last);
  }

  /** A walk that reads a leftover byte `m[p]` in front of packets as anything but a silent one-byte packet. */
  lemma {:induction false} Derailed(m: seq<Byte>, past: Byte, p: nat, last: Word, ks: seq<Packet>)
    requires p < |m| && m[p + 1..] == EncodeAll(ks) && FormedAll(ks)
    requires var n := Next(m[p..], past, last);
             n != Advance(1, [], last) && (n.Advance? ==> (n.ips == [] ==> n.last == last) && n.ips <= [n.last])
    ensures Walk(m, past, p, last) != Run([p], [], 0, p + 1, last).Then(Arrival(ks, p + 1, last))
  {
    hide Next, EncodeAll, FormedAll, GotAll, LastGotAll, Offsets;
    var n := Next(m[p..], past, last);
    if n.Advance? {
      NextBounds(m[p..], past, last);
      hide Walk, TruncatedCyc;
      WalkTurn(m, past, p, last);
      if n.used > 1 {
        Overshot(m, past, p, p + n.used, n.last, ks);
      } else {
        assert n.ips == [n.last];
        LoggedMore(m, past, p + 1, n.last, last, ks);
      }
    }
  }

  lemma {:induction false} PeelFirst(w: Run, a: Run, last: Word)
    ensures Run([0], [], 0, 10, last).Then(w) == Run([0, 10], [], 0, 11, last).Then(a) <==>
            w == Run([10], [], 0, 11, last).Then(a)
  {
    var l, r := [0] + w.visits, [0, 10] + a.visits;
    assert l[1..] == w.visits && r[1..] == [10] + a.visits && l[0] == r[0];
    assert l == [0] + l[1..] && r == [0] + r[1..];
  }

  /**
    * MNT is eleven bytes long but skipped as ten, so its last payload byte is decoded as if a packet
    * started there.  The walk over an MNT and the packets behind it, whatever they are, goes on with those
    * packets if and only if that byte passes unnoticed.
    */
  lemma {:induction false} MntExactly(payload: seq<Byte>, ks: seq<Packet>, past: Byte, last: Word)
    requires |payload| == 8 && FormedAll(ks)
    ensures var w := Walk([0x02, 0xc3, 0x88] + payload + EncodeAll(ks), past, 0, last);
            w == Run([0, 10], [], 0, 11, last).Then(Arrival(ks, 11, last)) <==> Unnoticed(payload[7], EncodeAll(ks))
  {
    hide Next, Walk, EncodeAll, FormedAll, Offsets, GotAll, LastGotAll, Unnoticed;
    var m := [0x02, 0xc3, 0x88] + payload + EncodeAll(ks);
    MntNext(payload, EncodeAll(ks), past, last);
    LeftoverNext(payload[7], EncodeAll(ks), past, last);
    PeelFirst(Walk(m, past, 10, last), Arrival(ks, 11, last), last);
    if Unnoticed(payload[7], EncodeAll(ks)) {
      WalkTurn(m, past, 10, last);
      WalkToEnd(m, past, 11, last, ks);
    } else {
      Derailed(m, past, 10, last, ks);
    }
  }

  const MNT_TIP: seq<Byte> := [0x02, 0xc3, 0x88, 0, 0, 0, 0, 0, 0, 0, 0x0d]

  /** The failure occurs: the last payload byte of this MNT is taken for a TIP and an IP of 0 is logged. */
  lemma {:induction false} MntLogsZero(past: Byte)
    ensures Decode(PSB + MNT_TIP, past).ips == [0]
  {
    hide Walk, CycTail;
    var payload := [0, 0, 0, 0, 0, 0, 0, 0x0d];
    assert MNT_TIP == [0x02, 0xc3, 0x88] + payload + [];
    MntNext(payload, [], past, 0);
    assert MNT_TIP[10..] == [0x0d];
    assert Next([0x0d], past, 0) == Advance(1, [0], 0);
    WalkTurn(MNT_TIP, past, 10, 0);
    WalkOver(MNT_TIP, past, 11, 0);
    hide Next;
    BehindPsb(MNT_TIP, past);
  }
}
