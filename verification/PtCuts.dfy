/** Trace windows that end inside a packet: what the decoder makes of the beginning of one. */
module PtCuts {
  import opened Words
  import opened IpCompression
  import opened PtDecoder
  import opened PtTheorems
  import opened PtPackets
  import opened PtStreams

  /** The first `n` bytes of a packet, at least one and not all of them. */
  predicate IsCut(k: Packet, n: nat) {
    0 < n < |Encode(k)|
  }

  /** Packets with a two-byte header and payload; a cut leaves the payload to be read as packets. */
  predicate HasPayload(k: Packet) {
    k.Tnt64? || k.Pip? || k.Cbr? || k.Tma? || k.Vmcs?
  }

  /** The IPs logged for the first `n` bytes of packet `k`. */
  function CutIps(k: Packet, n: nat, past: Byte, last: Word): seq<Word>
    requires IsCut(k, n)
  {
    if k.Ip? then [0] + Walk(Encode(k)[1..n], past, 0, 0).ips
    else if HasPayload(k) && n > 2 then Walk(Encode(k)[2..n], past, 0, last).ips
    else []
  }

  lemma {:induction false} WalkFirst(m: seq<Byte>, past: Byte, last: Word)
    requires m != [] && Next(m, past, last).Advance? && Next(m, past, last).used <= |m|
    ensures var n := Next(m, past, last);
            var w := Walk(m[n.used..], past, 0, n.last);
            Walk(m, past, 0, last).ips == n.ips + w.ips && Walk(m, past, 0, last).pos == n.used + w.pos
  {
    hide Next;
    var n := Next(m, past, last);
    assert m[0..] == m == m[..n.used] + m[n.used..];
    WalkShift(m[..n.used], m[n.used..], past, 0, n.last);
  }

  /** The header of an IP packet without all of its payload logs a 0 and resets `last_ip`. */
  lemma {:induction false} CutIp(k: Packet, n: nat, past: Byte, last: Word)
    requires k.Ip? && Formed(k) && IsCut(k, n)
    ensures Next(Encode(k)[..n], past, last) == Advance(1, [0], 0)
  {
    hide Payload, CycTail, Extended, IsIpHeader;
    var c := Encode(k)[..n];
    IpHeaderBits(k.kind, k.ipl);
    assert |c[1..]| < PayloadLen(k.ipl);
  }

  lemma {:induction false} CutShort(k: Packet, n: nat, past: Byte, last: Word)
    requires (k.Mode? || k.Tsc? || k.Mtc?) && Formed(k) && IsCut(k, n)
    ensures Next(Encode(k)[..n], past, last).Stuck?
  {
    hide ReadIp, CycTail, Extended;
  }

  lemma {:induction false} CutCyc(k: Packet, n: nat, past: Byte, last: Word)
    requires k.Cyc? && Formed(k) && IsCut(k, n)
    ensures Next(Encode(k)[..n], past, last) == Advance(n + 1, [], last)
  {
    hide ReadIp, CycTail, Extended, IsIpHeader;
    var c := Encode(k)[..n];
    CycBits(k.head);
    CycTailBounds(c[1..], past);
    assert forall i :: 0 <= i < n - 1 ==> c[1..][i] == k.more[i];
  }

  /** The two header bytes in front of an incomplete payload read as one packet each. */
  lemma {:induction false} CutHeader(k: Packet, n: nat, past: Byte, last: Word)
    requires (HasPayload(k) || k.TraceStop? || k.PsbEnd?) && Formed(k) && IsCut(k, n)
    ensures Next(Encode(k)[..n], past, last) == Advance(1, [], last)
    ensures n > 1 ==> Next(Encode(k)[1..n], past, last) == Advance(1, [], last)
    ensures n > 1 ==> HasPayload(k)
  {
    hide ReadIp, CycTail;
    assert k.TraceStop? || k.PsbEnd? ==> |Encode(k)| == 2;
  }

  lemma {:induction false} WalkPsbBytes(t: seq<Byte>, past: Byte, last: Word)
    requires |t| < 16 && forall i :: 0 <= i < |t| ==> t[i] == 0x02 || t[i] == 0x82
    ensures Walk(t, past, 0, last).ips == [] && Walk(t, past, 0, last).pos == |t|
    decreases |t|
  {
    hide Walk, ReadIp, CycTail;
    if t == [] {
      WalkOver([], past, 0, last);
    } else {
      assert Next(t, past, last) == Advance(1, [], last);
      WalkFirst(t, past, last);
      WalkPsbBytes(t[1..], past, last);
    }
  }

  /** A cut CYC packet is the one that moves the cursor past the end. */
  lemma {:induction false} WalkCutCyc(m: seq<Byte>, past: Byte, last: Word)
    requires m != [] && Next(m, past, last) == Advance(|m| + 1, [], last)
    ensures Walk(m, past, 0, last) == Run([0], [], 0, |m| + 1, last)
  {
    hide Next;
    assert m[0..] == m;
  }

  lemma {:induction false} WalkCutPayload(k: Packet, n: nat, past: Byte, last: Word)
    requires (HasPayload(k) || k.TraceStop? || k.PsbEnd?) && Formed(k) && IsCut(k, n)
    ensures Walk(Encode(k)[..n], past, 0, last).ips == CutIps(k, n, past, last)
  {
    hide Walk, Next, Formed, Encode;
    CutHeader(k, n, past, last);
    var c := Encode(k)[..n];
    WalkFirst(c, past, last);
    assert c[1..] == Encode(k)[1..n];
    WalkOver([], past, 0, last);
    if n == 1 {
      assert c[1..] == [];
    } else {
      WalkFirst(c[1..], past, last);
      assert c[1..][1..] == Encode(k)[2..n];
      assert n == 2 ==> Encode(k)[2..n] == [];
    }
  }

  /** Encodings are at most 16 bytes long, CYC apart; only PAD and the short TNT have a single byte. */
  lemma {:induction false} EncodeLength(k: Packet)
    requires Formed(k)
    ensures !k.Cyc? ==> |Encode(k)| <= 16
    ensures k.Pad? || k.Tnt8? ==> |Encode(k)| == 1
  {
  }

  lemma {:induction false} WalkCutPsb(n: nat, past: Byte, last: Word)
    requires IsCut(Psb, n)
    ensures Walk(Encode(Psb)[..n], past, 0, last).ips == []
  {
    WalkPsbBytes(Encode(Psb)[..n], past, last);
  }

  lemma {:induction false} WalkCut(k: Packet, n: nat, past: Byte, last: Word)
    requires Formed(k) && IsCut(k, n)
    ensures var w := Walk(Encode(k)[..n], past, 0, last);
            w.ips == CutIps(k, n, past, last) && n < w.pos + 16
  {
    hide Walk, Next, Encode, Formed;
    EncodeLength(k);
    var c := Encode(k)[..n];
    if k.Ip? {
      CutIp(k, n, past, last);
      WalkFirst(c, past, last);
      assert c[1..] == Encode(k)[1..n];
    } else if k.Cyc? {
      CutCyc(k, n, past, last);
      WalkCutCyc(c, past, last);
    } else if k.Psb? {
      WalkCutPsb(n, past, last);
    } else if k.Mode? || k.Tsc? || k.Mtc? {
      CutShort(k, n, past, last);
      assert c[0..] == c;
      WalkTurn(c, past, 0, last);
    } else {
      WalkCutPayload(k, n, past, last);
    }
  }

  lemma {:induction false} CutHasNoPsb(k: Packet, n: nat)
    requires Formed(k) && IsCut(k, n)
    ensures NoPsb(Encode(k)[..n], 0, n)
  {
    EncodeLength(k);
    var c := Encode(k)[..n];
    forall i | 0 <= i < n
      ensures !PsbAt(c, i)
    {
      if i + 16 <= n {
        assert k.Cyc?;
        assert c[i] & 1 == 1;
        assert c[i..i + 16][0] == c[i] && PSB[0] & 1 == 0;
      }
    }
  }

  /**
    * A window that ends inside a packet: everything in front of the cut is decoded as if the window ended
    * there, and for the cut packet exactly `CutIps` is logged in addition.  This holds for every stream,
    * with garbage between segments and whatever IP lengths were chosen.
    */
  lemma {:induction false} CutWindow(segs: seq<Segment>, k: Packet, n: nat, past: Byte)
    requires segs != [] && Formed(k) && IsCut(k, n) && OpenStream(segs, Encode(k)[..n])
    ensures Decode(StreamBytes(segs, Encode(k)[..n]), past).ips ==
            GotAll(Packets(segs), 0) + CutIps(k, n, past, LastGotAll(Packets(segs), 0))
  {
    hide Decode, Walk, Encode, Formed, OpenStream, GotAll, LastGotAll, CutIps;
    OpenWindow(segs, Encode(k)[..n], past);
    WalkCut(k, n, past, LastGotAll(Packets(segs), 0));
  }

  /** If the packets in front of the cut are legal for the decoder, these are the IPs they report. */
  lemma {:induction false} CutLegalWindow(segs: seq<Segment>, k: Packet, n: nat, past: Byte)
    requires segs != [] && Formed(k) && IsCut(k, n) && OpenStream(segs, Encode(k)[..n])
    requires LegalAll(Packets(segs), 0)
    ensures Decode(StreamBytes(segs, Encode(k)[..n]), past).ips ==
            ReportsAll(Packets(segs)) + CutIps(k, n, past, LastAfterAll(Packets(segs), 0))
  {
    hide Decode, Encode, Formed, OpenStream, GotAll, LastGotAll, CutIps, LegalAll, FormedAll;
    CutWindow(segs, k, n, past);
    OpenIsFormed(segs, Encode(k)[..n]);
    GotAllExactly(Packets(segs), 0);
  }

  /** One packet list that starts with a PSB, cut inside the packet behind it. */
  lemma {:induction false} CutList(ks: seq<Packet>, k: Packet, n: nat, past: Byte)
    requires ks != [] && ks[0] == Psb && LegalAll(ks, 0) && Formed(k) && IsCut(k, n)
    ensures Decode(EncodeAll(ks) + Encode(k)[..n], past).ips ==
            ReportsAll(ks) + CutIps(k, n, past, LastAfterAll(ks, 0))
  {
    hide Decode, Encode, EncodeAll, Formed, OpenStream, CutIps, LegalAll, FormedAll;
    LegalIsFormed(ks, 0);
    CutHasNoPsb(k, n);
    OneSegment(ks, Encode(k)[..n]);
    CutLegalWindow([Segment([], ks)], k, n, past);
  }

  lemma {:induction false} LogsAtHeader(s: seq<Byte>, past: Byte, last: Word)
    requires |s| > 0
    ensures var n := Next(s, past, last);
            n.Advance? ==> (n.ips != [] <==> IsIpHeader(s[0]))
  {
    hide ReadIp, CycTail, Extended;
  }

  /** A walk logs nothing if and only if no packet it decodes has an IP header. */
  lemma {:induction false} SilentExactly(m: seq<Byte>, past: Byte, p: nat, last: Word)
    requires p <= |m| + 1
    ensures var r := Walk(m, past, p, last);
            r.ips == [] <==> forall i :: i in r.visits ==> i < |m| && !IsIpHeader(m[i])
    decreases |m| - p
  {
    hide Next, IsIpHeader;
    if p < |m| {
      NextBounds(m[p..], past, last);
      LogsAtHeader(m[p..], past, last);
      var n := Next(m[p..], past, last);
      if n.Advance? {
        SilentExactly(m, past, p + n.used, n.last);
        var r, w := Walk(m, past, p, last), Walk(m, past, p + n.used, n.last);
        assert r.visits == [p] + w.visits && r.ips == n.ips + w.ips;
        assert m[p..][0] == m[p];
        assert p in r.visits && forall i :: i in w.visits ==> i in r.visits;
      }
    }
  }

  /**
    * Which cuts log nothing: not those of an IP packet, which log at least the 0 of its header; of the
    * others precisely those in whose payload, read as packets, no IP header is met.
    */
  lemma {:induction false} CutSilentExactly(k: Packet, n: nat, past: Byte, last: Word)
    requires IsCut(k, n)
    ensures CutIps(k, n, past, last) == [] <==>
            && !k.Ip?
            && (HasPayload(k) && n > 2 ==>
                  var t := Encode(k)[2..n];
                  forall i :: i in Walk(t, past, 0, last).visits ==> i < |t| && !IsIpHeader(t[i]))
  {
    hide Walk, Encode, IsIpHeader;
    if HasPayload(k) && n > 2 {
      SilentExactly(Encode(k)[2..n], past, 0, last);
    }
  }

  lemma {:induction false} EvenIsNoHeader(b: Byte)
    ensures b & 1 == 0 ==> !IsIpHeader(b)
  {
  }

  /** In particular a cut that is not inside an IP packet is silent if no byte of its payload looks like an IP
      header; all even bytes are of this kind. */
  lemma {:induction false} QuietPayload(k: Packet, n: nat, past: Byte, last: Word)
    requires IsCut(k, n) && !k.Ip?
    requires HasPayload(k) ==> forall i :: 2 <= i < n ==> Encode(k)[i] & 1 == 0 || !IsIpHeader(Encode(k)[i])
    ensures CutIps(k, n, past, last) == []
  {
    hide Walk, Encode, CutIps;
    if HasPayload(k) && n > 2 {
      var t := Encode(k)[2..n];
      forall i | 0 <= i < |t|
        ensures !IsIpHeader(t[i])
      {
        assert t[i] == Encode(k)[i + 2];
        EvenIsNoHeader(t[i]);
      }
      WalkShape(t, past, 0, last);
    }
    CutSilentExactly(k, n, past, last);
  }
}
