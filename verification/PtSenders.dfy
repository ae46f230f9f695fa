/** Streams as the Intel SDM has the processor send them, and which of them the decoder reads correctly. */
module PtSenders {
  import opened Words
  import opened IpCompression
  import opened PtDecoder
  import opened PtPackets
  import opened PtStreams

  /** The last IP of a sender after a packet: section 33.4.2 of the Intel SDM, volume 3C, has a PSB clear it. */
  function SdmLast(k: Packet, last: Word): Word {
    if k.Psb? then 0 else LastAfter(k, last)
  }

  /** Packets whose IP lengths suit the last IP of such a sender. */
  predicate SdmLegal(ks: seq<Packet>, last: Word) {
    ks == [] || (Legal(ks[0], last) && SdmLegal(ks[1..], SdmLast(ks[0], last)))
  }

  lemma {:induction false} SdmIsFormed(ks: seq<Packet>, last: Word)
    requires SdmLegal(ks, last)
    ensures FormedAll(ks)
    decreases |ks|
  {
    hide Formed, SdmLast, Compressible;
    if ks != [] {
      SdmIsFormed(ks[1..], SdmLast(ks[0], last));
      assert forall i :: 0 < i < |ks| ==> ks[i] == ks[1..][i - 1];
    }
  }

  /**
    * Walking over such packets, whatever the last IPs of sender and decoder are, finds every packet and
    * logs one IP per IP packet.  The IPs logged are those that were sent if and only if the IP lengths suit
    * a last IP that is not cleared.
    */
  lemma {:induction false} SdmWalk(m: seq<Byte>, past: Byte, p: nat, ks: seq<Packet>, sent: Word, recv: Word)
    requires p <= |m| && m[p..] == EncodeAll(ks) && SdmLegal(ks, sent)
    ensures var r := Walk(m, past, p, recv);
            && r.visits == Offsets(ks, p)
            && |r.ips| == |ReportsAll(ks)|
            && (r.ips == ReportsAll(ks) <==> LegalAll(ks, recv))
  {
    hide Next, EncodeAll, FormedAll, SdmLegal, LegalAll, Offsets, GotAll, LastGotAll, ReportsAll;
    SdmIsFormed(ks, sent);
    assert m[p..] == EncodeAll(ks) + [];
    WalkFormed(m, past, p, recv, ks, []);
    GotAllExactly(ks, recv);
  }

  /** The same for `decode` of whole streams, with garbage between segments. */
  lemma {:induction false} SdmStream(segs: seq<Segment>, tail: seq<Byte>, past: Byte, sent: Word)
    requires OpenStream(segs, tail) && Closed(segs, tail) && SdmLegal(Packets(segs), sent)
    ensures var r := Decode(StreamBytes(segs, tail), past);
            && r.visits == StreamOffsets(segs, 0)
            && |r.ips| == |ReportsAll(Packets(segs))|
            && (r.ips == ReportsAll(Packets(segs)) <==> LegalAll(Packets(segs), 0))
  {
    hide Decode, OpenStream, Closed, SdmLegal, LegalAll, GotAll, LastGotAll, ReportsAll;
    AnySender(segs, tail, past);
  }

  /** With a single PSB at its start a stream has nothing to clear and is read correctly. */
  lemma {:induction false} OnePsbSuffices(ks: seq<Packet>, last: Word)
    requires SdmLegal(ks, last) && forall i :: 0 < i < |ks| ==> !ks[i].Psb?
    requires ks != [] && ks[0].Psb? ==> last == 0
    ensures LegalAll(ks, last)
    decreases |ks|
  {
    hide Formed, Compressible;
    if ks != [] {
      OnePsbSuffices(ks[1..], LastAfter(ks[0], last));
    }
  }

  const HIGH: Packet := Ip(Tip, 6, 0x7f00_0000_0000)
  const LOW: Packet := Ip(Tip, 2, 0x1000)

  lemma {:induction false} LowAfterHigh()
    ensures Legal(HIGH, 0) && Legal(LOW, 0)
    ensures forall last :: Read(HIGH, last) == 0x7f00_0000_0000
    ensures Read(LOW, 0x7f00_0000_0000) == 0x7f00_0000_1000
  {
  }

  lemma {:induction false} FourPackets(k: Packet, l: Packet)
    ensures var ks := [Psb, k, Psb, l];
            ks[1..] == [k, Psb, l] && [k, Psb, l][1..] == [Psb, l] && [Psb, l][1..] == [l] && [l][1..] == []
  {
  }

  lemma {:induction false} PsbIsLegal(last: Word)
    ensures Legal(Psb, last)
  {
  }

  lemma {:induction false} SecondSent(k: Packet, l: Packet)
    requires k.Ip? && l.Ip? && Legal(k, 0) && Legal(l, 0)
    ensures SdmLegal([Psb, k, Psb, l], 0) && ReportsAll([Psb, k, Psb, l]) == [k.ip, l.ip]
  {
    hide Compressible, Formed;
    FourPackets(k, l);
    PsbIsLegal(0);
    PsbIsLegal(k.ip);
    assert SdmLegal([], l.ip);
    assert SdmLegal([l], 0);
    assert SdmLegal([Psb, l], k.ip);
    assert SdmLegal([k, Psb, l], 0);
    assert SdmLegal([Psb, k, Psb, l], 0);
    assert ReportsAll([l]) == [l.ip];
    assert ReportsAll([Psb, l]) == [l.ip];
    assert ReportsAll([k, Psb, l]) == [k.ip] + [l.ip];
  }

  lemma {:induction false} SecondGot(k: Packet, l: Packet)
    requires k.Ip? && l.Ip?
    ensures GotAll([Psb, k, Psb, l], 0) == [Read(k, 0), Read(l, Read(k, 0))]
  {
    hide Read;
    FourPackets(k, l);
    var last := Read(k, 0);
    assert GotAll([l], last) == [Read(l, last)] && GotAll([Psb, l], last) == [Read(l, last)];
    assert GotAll([k, Psb, l], 0) == [last] + [Read(l, last)];
  }

  /** The failure occurs: a TIP with a high address, a PSB, and a TIP that leaves out upper bytes because they
      are zero; the decoder completes it with those of the first. */
  lemma {:induction false} SdmWrongIp(past: Byte)
    ensures var ks := [Psb, HIGH, Psb, LOW];
            && SdmLegal(ks, 0)
            && ReportsAll(ks) == [0x7f00_0000_0000, 0x1000]
            && Decode(EncodeAll(ks), past).ips == [0x7f00_0000_0000, 0x7f00_0000_1000]
  {
    hide Decode, Read, Legal;
    var ks := [Psb, HIGH, Psb, LOW];
    LowAfterHigh();
    SecondSent(HIGH, LOW);
    SecondGot(HIGH, LOW);
    SdmIsFormed(ks, 0);
    hide SdmLegal, ReportsAll, GotAll, EncodeAll, FormedAll, OpenStream;
    OneSegment(ks, []);
    assert EncodeAll(ks) + [] == EncodeAll(ks);
    AnySender([Segment([], ks)], [], past);
  }
}
