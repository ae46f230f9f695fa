/** Whole trace streams: packets, garbage between them, and what `decode` makes of both. */
module PtStreams {
  import opened Prelude
  import opened Words
  import opened IpCompression
  import opened PtDecoder
  import opened PtTheorems
  import opened PtPackets

  /** Bytes that do not decode, then packets of which the first is a PSB. */
  datatype Segment = Segment(junk: seq<Byte>, packets: seq<Packet>)

  function StreamBytes(segs: seq<Segment>, tail: seq<Byte>): seq<Byte> {
    if segs == [] then tail
    else segs[0].junk + (EncodeAll(segs[0].packets) + StreamBytes(segs[1..], tail))
  }

  /** First bytes on which the inner loop gives up. */
  predicate Undecodable(s: seq<Byte>) {
    && s != []
    && s[0] & 3 == 1
    && s[0] & 0x1f != 0x0d && s[0] & 0x1f != 0x11 && s[0] & 0x1f != 0x01 && s[0] & 0x1f != 0x1d
    && !(s[0] == 0x99 && |s| >= 2 && s[1] < 0x40)
    && !(s[0] == 0x19 && |s| >= 8)
    && !(s[0] == 0x59 && |s| >= 2)
  }

  /** All packets of a stream. */
  function Packets(segs: seq<Segment>): seq<Packet> {
    if segs == [] then [] else segs[0].packets + Packets(segs[1..])
  }

  /**
    * A stream of well-formed packets: segments start with a PSB, no PSB begins inside garbage, garbage
    * between segments starts with an undecodable byte.  Nothing is said of what follows the last packet,
    * except that no PSB begins there, nor of the IP lengths chosen.
    */
  predicate OpenStream(segs: seq<Segment>, tail: seq<Byte>) {
    if segs == [] then NoPsb(tail, 0, |tail|)
    else
      var ks := segs[0].packets;
      && NoPsb(StreamBytes(segs, tail), 0, |segs[0].junk|)
      && ks != [] && ks[0] == Psb && FormedAll(ks)
      && (|segs| == 1 || Undecodable(StreamBytes(segs[1..], tail)))
      && OpenStream(segs[1..], tail)
  }

  /** What follows the last packet does not decode either. */
  predicate Closed(segs: seq<Segment>, tail: seq<Byte>) {
    segs == [] || tail == [] || Undecodable(tail)
  }

  /** A stream whose packets are legal in sequence for a receiver that carries its last IP across PSBs and
      garbage, as the decoder does. */
  predicate LegalStream(segs: seq<Segment>, tail: seq<Byte>, last: Word) {
    OpenStream(segs, tail) && Closed(segs, tail) && LegalAll(Packets(segs), last)
  }

  /** Packet offsets of a stream that starts at `p`. */
  function StreamOffsets(segs: seq<Segment>, p: nat): seq<nat> {
    if segs == [] then []
    else
      var q := p + |segs[0].junk|;
      Offsets(segs[0].packets, q) + StreamOffsets(segs[1..], q + |EncodeAll(segs[0].packets)|)
  }

  /** The run that a stream occupying `[p..end]` should produce. */
  function StreamRun(segs: seq<Segment>, p: nat, end: nat, last: Word): Run {
    Run(StreamOffsets(segs, p), ReportsAll(Packets(segs)), |segs|, end, LastAfterAll(Packets(segs), last))
  }

  /** The run that it does produce in a receiver with last IP `last`. */
  function StreamArrival(segs: seq<Segment>, p: nat, end: nat, last: Word): Run {
    Run(StreamOffsets(segs, p), GotAll(Packets(segs), last), |segs|, end, LastGotAll(Packets(segs), last))
  }

  lemma {:induction false} TopBits(b: Byte)
    ensures b >> 5 == 0 || b >> 5 == 1 <==> b < 0x40
  {
  }

  lemma {:induction false} OddBits(b: Byte)
    ensures b & 3 == 1 <==> b & 1 != 0 && b & 3 != 3
    ensures b & 3 == 1 ==> b != 2
  {
  }

  /** Exactly the undecodable bytes stop the inner loop, in every state of the decoder. */
  lemma {:induction false} StuckExactly(s: seq<Byte>, past: Byte, last: Word)
    requires s != []
    ensures Next(s, past, last).Stuck? <==> Undecodable(s)
  {
    hide ReadIp, CycTail, Extended;
    OddBits(s[0]);
    if |s| >= 2 {
      TopBits(s[1]);
    }
  }

  lemma {:induction false} NoPsbSuffix(m: seq<Byte>, p: nat, n: nat)
    requires p <= |m| && NoPsb(m[p..], 0, n)
    ensures NoPsb(m, p, p + n)
  {
    hide PsbAt;
    forall k | p <= k < p + n
      ensures !PsbAt(m, k)
    {
      PsbAtSuffix(m, p, k - p);
      assert !PsbAt(m[p..], k - p);
    }
  }

  lemma {:induction false} GotConcat(a: seq<Packet>, b: seq<Packet>, last: Word)
    ensures GotAll(a + b, last) == GotAll(a, last) + GotAll(b, LastGotAll(a, last))
    ensures LastGotAll(a + b, last) == LastGotAll(b, LastGotAll(a, last))
    decreases |a|
  {
    hide Got, LastGot;
    if a == [] {
      assert a + b == b;
    } else {
      assert (a + b)[0] == a[0] && (a + b)[1..] == a[1..] + b;
      var l := LastGot(a[0], last);
      GotConcat(a[1..], b, l);
      assert Got(a[0], last) + (GotAll(a[1..], l) + GotAll(b, LastGotAll(a, last)))
          == GotAll(a, last) + GotAll(b, LastGotAll(a, last));
    }
  }

  lemma {:induction false} OpenIsFormed(segs: seq<Segment>, tail: seq<Byte>)
    requires OpenStream(segs, tail)
    ensures FormedAll(Packets(segs))
    decreases |segs|
  {
    hide Formed, Undecodable, NoPsb, StreamBytes;
    if segs != [] {
      OpenIsFormed(segs[1..], tail);
      var ks, more := segs[0].packets, Packets(segs[1..]);
      assert forall i :: |ks| <= i < |ks + more| ==> (ks + more)[i] == more[i - |ks|];
    }
  }

  /** The first segment, then the others. */
  lemma {:induction false} ArrivalSegment(segs: seq<Segment>, p: nat, end: nat, last: Word)
    requires segs != []
    ensures var e := Arrival(segs[0].packets, p + |segs[0].junk|, last);
            StreamArrival(segs, p, end, last) == e.(psbs := 1).Then(StreamArrival(segs[1..], e.pos, end, e.last))
  {
    hide GotAll, LastGotAll, Offsets, EncodeAll;
    GotConcat(segs[0].packets, Packets(segs[1..]), last);
  }

  lemma {:induction false} PsbHere(m: seq<Byte>, q: nat)
    requires q < |m| && PsbAt(m, q)
    ensures FindPsb(m[q..]) == Some(0)
  {
    hide FindPsb;
    PsbAtSuffix(m, q, 0);
  }

  lemma {:induction false} StartsWithPsb(ks: seq<Packet>, rest: seq<Byte>)
    requires ks != [] && ks[0] == Psb
    ensures |EncodeAll(ks)| > 0 && PsbAt(EncodeAll(ks) + rest, 0)
  {
    assert (EncodeAll(ks) + rest)[0..16] == EncodeAll(ks)[..16] == PSB;
  }

  lemma {:induction false} PsbOfSegment(m: seq<Byte>, q: nat, ks: seq<Packet>, rest: seq<Byte>)
    requires q <= |m| && m[q..] == EncodeAll(ks) + rest && ks != [] && ks[0] == Psb
    ensures q < |m| && FindPsb(m[q..]) == Some(0)
  {
    hide EncodeAll, PsbAt, FindPsb;
    StartsWithPsb(ks, rest);
    PsbAtSuffix(m, q, 0);
    PsbHere(m, q);
  }

  lemma {:induction false} ThenPsbs(a: Run, b: Run, c: Run)
    requires a.psbs == 0 && b.psbs == 0
    ensures a.Then(b).(psbs := 1).Then(c) == a.(psbs := 1).Then(b).Then(c)
  {
  }

  /** An outer round that starts at the first packet of a segment. */
  lemma {:induction false} SegmentRound(m: seq<Byte>, past: Byte, q: nat, last: Word, ks: seq<Packet>, rest: seq<Byte>)
    requires q <= |m| && m[q..] == EncodeAll(ks) + rest && ks != [] && ks[0] == Psb && FormedAll(ks)
    ensures var a := Arrival(ks, q, last);
            var w := Walk(m, past, a.pos, a.last);
            && a.pos <= |m| && m[a.pos..] == rest
            && Scan(m, past, q, last) == a.(psbs := 1).Then(w).Then(Scan(m, past, w.pos, w.last))
  {
    hide EncodeAll, FormedAll, PsbAt, FindPsb, Walk, Scan, GotAll, LastGotAll, Offsets;
    PsbOfSegment(m, q, ks, rest);
    ScanRound(m, past, q, last);
    WalkFormed(m, past, q, last, ks, rest);
    var a := Arrival(ks, q, last);
    var w := Walk(m, past, a.pos, a.last);
    WalkNoPsbs(m, past, a.pos, a.last);
    ThenPsbs(a, w, Scan(m, past, w.pos, w.last));
  }

  lemma {:induction false} WalkStops(m: seq<Byte>, past: Byte, p: nat, last: Word)
    requires p <= |m| && (p == |m| || Undecodable(m[p..]))
    ensures Walk(m, past, p, last) == Run([], [], 0, p, last)
  {
    hide Next, Undecodable;
    if p < |m| {
      StuckExactly(m[p..], past, last);
    }
  }

  /** From a segment's PSB on the walk covers its packets, up to the garbage behind them. */
  lemma {:induction false} WalkSegment(m: seq<Byte>, past: Byte, q: nat, last: Word, ks: seq<Packet>, rest: seq<Byte>)
    requires q <= |m| && m[q..] == EncodeAll(ks) + rest
    requires ks != [] && ks[0] == Psb && LegalAll(ks, last)
    requires rest == [] || Undecodable(rest)
    ensures PsbAt(m, q)
    ensures Walk(m, past, q, last) == Expected(ks, q, last)
    ensures q + |EncodeAll(ks)| <= |m| && m[q + |EncodeAll(ks)|..] == rest
  {
    hide Walk, PsbAt, Undecodable, EncodeAll, LegalAll, LastAfterAll, ReportsAll, Offsets;
    WalkPackets(m, past, q, last, ks, rest);
    WalkStops(m, past, q + |EncodeAll(ks)|, LastAfterAll(ks, last));
    StartsWithPsb(ks, rest);
    PsbAtSuffix(m, q, 0);
  }

  /** Where no PSB begins any more the scan ends. */
  lemma {:induction false} ScanRest(m: seq<Byte>, past: Byte, p: nat, last: Word)
    requires NoPsb(m, p, |m|)
    ensures Scan(m, past, p, last) == Run([], [], 0, if p < |m| then |m| else p, last)
  {
    hide NoPsb, Walk, FindPsb;
    if p < |m| {
      Resync(m, past, p, |m|, last);
    }
  }

  /** What the bytes behind the last packet add to a run. */
  function TailRun(m: seq<Byte>, past: Byte, segs: seq<Segment>, tail: seq<Byte>, last: Word): (r: Run)
    requires |tail| <= |m|
  {
    if segs == [] then Run([], [], 0, |m|, last)
    else
      var w := Walk(m, past, |m| - |tail|, last);
      w.(pos := if w.pos < |m| then |m| else w.pos)
  }

  lemma {:induction false} NoPsbLater(m: seq<Byte>, p: nat, q: nat, n: nat)
    requires p <= q && NoPsb(m, p, n)
    ensures NoPsb(m, q, n)
  {
  }

  /** The last segment: its packets, then the walk into whatever follows them. */
  lemma {:induction false} ScanLast(m: seq<Byte>, past: Byte, q: nat, last: Word, ks: seq<Packet>, tail: seq<Byte>)
    requires q <= |m| && m[q..] == EncodeAll(ks) + tail && NoPsb(tail, 0, |tail|)
    requires ks != [] && ks[0] == Psb && FormedAll(ks)
    ensures |tail| <= |m|
    ensures var w := Walk(m, past, |m| - |tail|, LastGotAll(ks, last));
            Scan(m, past, q, last) ==
            Arrival(ks, q, last).(psbs := 1).Then(w.(pos := if w.pos < |m| then |m| else w.pos))
  {
    hide Scan, Walk, EncodeAll, FormedAll, GotAll, LastGotAll, Offsets, NoPsb;
    SegmentRound(m, past, q, last, ks, tail);
    var a := Arrival(ks, q, last);
    var w := Walk(m, past, a.pos, a.last);
    NoPsbSuffix(m, a.pos, |tail|);
    NoPsbLater(m, a.pos, w.pos, |m|);
    ScanRest(m, past, w.pos, w.last);
  }

  /** A segment with others behind it: its packets, then the rest of the stream. */
  lemma {:induction false} ScanNotLast(m: seq<Byte>, past: Byte, q: nat, last: Word, ks: seq<Packet>, rest: seq<Byte>)
    requires q <= |m| && m[q..] == EncodeAll(ks) + rest && Undecodable(rest)
    requires ks != [] && ks[0] == Psb && FormedAll(ks)
    ensures var a := Arrival(ks, q, last);
            && a.pos <= |m| && m[a.pos..] == rest
            && Scan(m, past, q, last) == a.(psbs := 1).Then(Scan(m, past, a.pos, a.last))
  {
    hide Scan, Walk, EncodeAll, FormedAll, GotAll, LastGotAll, Offsets, Undecodable;
    SegmentRound(m, past, q, last, ks, rest);
    var a := Arrival(ks, q, last);
    WalkStops(m, past, a.pos, a.last);
  }

  lemma {:induction false} NothingGot(last: Word)
    ensures GotAll([], last) == [] && LastGotAll([], last) == last
  {
  }

  /** The garbage in front of a segment. */
  lemma {:induction false} SkipJunk(m: seq<Byte>, past: Byte, p: nat, last: Word, junk: seq<Byte>, rest: seq<Byte>)
    requires p <= |m| && m[p..] == junk + rest && NoPsb(junk + rest, 0, |junk|)
    ensures p + |junk| <= |m| && m[p + |junk|..] == rest
    ensures Scan(m, past, p, last) == Scan(m, past, p + |junk|, last)
  {
    hide Scan, NoPsb;
    NoPsbSuffix(m, p, |junk|);
    Resync(m, past, p, p + |junk|, last);
    assert m[p + |junk|..] == m[p..][|junk|..];
  }

  /** A stream of one segment. */
  lemma {:induction false} ScanOne(m: seq<Byte>, past: Byte, p: nat, last: Word, segs: seq<Segment>, tail: seq<Byte>)
    requires p <= |m| && m[p..] == StreamBytes(segs, tail) && OpenStream(segs, tail) && |segs| == 1
    ensures |tail| <= |m|
    ensures Scan(m, past, p, last) ==
            StreamArrival(segs, p, |m|, last).Then(TailRun(m, past, segs, tail, LastGotAll(Packets(segs), last)))
  {
    hide Scan, Walk, FormedAll, NoPsb, GotAll, LastGotAll, Offsets, EncodeAll;
    var ks := segs[0].packets;
    assert segs[1..] == [];
    SkipJunk(m, past, p, last, segs[0].junk, EncodeAll(ks) + tail);
    ScanLast(m, past, p + |segs[0].junk|, last, ks, tail);
    NothingGot(LastGotAll(ks, last));
    GotConcat(ks, [], last);
    ArrivalSegment(segs, p, |m|, last);
  }

  /**
    * Any stream, from any offset, in a decoder with any last IP: the packets arrive at their offsets with
    * the IPs that this last IP completes, and then the bytes behind the last packet are decoded.
    */
  lemma {:induction false} ScanStream(m: seq<Byte>, past: Byte, p: nat, last: Word, segs: seq<Segment>, tail: seq<Byte>)
    requires p <= |m| && m[p..] == StreamBytes(segs, tail) && OpenStream(segs, tail)
    ensures |tail| <= |m|
    ensures Scan(m, past, p, last) ==
            StreamArrival(segs, p, |m|, last).Then(TailRun(m, past, segs, tail, LastGotAll(Packets(segs), last)))
    decreases |segs|
  {
    hide Scan, Walk, Undecodable, FormedAll, NoPsb, GotAll, LastGotAll, Offsets, EncodeAll;
    if segs == [] {
      NoPsbSuffix(m, p, |tail|);
      ScanRest(m, past, p, last);
      NothingGot(last);
    } else if |segs| == 1 {
      ScanOne(m, past, p, last, segs, tail);
    } else {
      var ks, rest := segs[0].packets, StreamBytes(segs[1..], tail);
      var a := Arrival(ks, p + |segs[0].junk|, last);
      SkipJunk(m, past, p, last, segs[0].junk, EncodeAll(ks) + rest);
      ScanNotLast(m, past, p + |segs[0].junk|, last, ks, rest);
      ScanStream(m, past, a.pos, a.last, segs[1..], tail);
      ArrivalSegment(segs, p, |m|, last);
      GotConcat(ks, Packets(segs[1..]), last);
      hide StreamArrival, StreamBytes, OpenStream;
      ThenAssoc(a.(psbs := 1), StreamArrival(segs[1..], a.pos, |m|, a.last),
                TailRun(m, past, segs[1..], tail, LastGotAll(Packets(segs[1..]), a.last)));
    }
  }

  lemma {:induction false} TailAtEnd(segs: seq<Segment>, tail: seq<Byte>)
    ensures var m := StreamBytes(segs, tail);
            |tail| <= |m| && m[|m| - |tail|..] == tail
    decreases |segs|
  {
    hide EncodeAll;
    if segs != [] {
      TailAtEnd(segs[1..], tail);
      var front, rest := segs[0].junk + EncodeAll(segs[0].packets), StreamBytes(segs[1..], tail);
      assert StreamBytes(segs, tail) == front + rest;
      assert (front + rest)[|front| + |rest| - |tail|..] == rest[|rest| - |tail|..];
    }
  }

  /**
    * Streams of any sender.  For every stream of well-formed packets, whatever IP lengths were chosen,
    * `decode` visits exactly the packet offsets, logs one IP per IP packet, searches for a PSB once per
    * segment and ends at the end of the buffer.  It logs the IPs that were sent if and only if the IP
    * lengths suit a last IP that is carried across PSBs and garbage.
    */
  lemma {:induction false} AnySender(segs: seq<Segment>, tail: seq<Byte>, past: Byte)
    requires OpenStream(segs, tail) && Closed(segs, tail)
    ensures var m := StreamBytes(segs, tail);
            var r := Decode(m, past);
            && r == StreamArrival(segs, 0, |m|, 0)
            && |r.ips| == |ReportsAll(Packets(segs))|
            && (r.ips == ReportsAll(Packets(segs)) <==> LegalStream(segs, tail, 0))
            && (r == StreamRun(segs, 0, |m|, 0) <==> LegalStream(segs, tail, 0))
  {
    hide Scan, Walk, OpenStream, StreamOffsets, Undecodable, GotAll, LastGotAll, FormedAll, LegalAll, Packets;
    var m := StreamBytes(segs, tail);
    assert m[0..] == m;
    ScanStream(m, past, 0, 0, segs, tail);
    TailAtEnd(segs, tail);
    if segs != [] {
      assert m[|m| - |tail|..] == tail;
      WalkStops(m, past, |m| - |tail|, LastGotAll(Packets(segs), 0));
    }
    OpenIsFormed(segs, tail);
    GotAllExactly(Packets(segs), 0);
  }

  /**
    * Stream round trip with garbage.  For every legal stream, `decode` visits exactly the packet
    * offsets, logs exactly the reported IPs in order, searches for a PSB once per segment and ends at
    * the end of the buffer.
    */
  lemma {:induction false} StreamRoundTrip(segs: seq<Segment>, tail: seq<Byte>, past: Byte)
    requires LegalStream(segs, tail, 0)
    ensures var m := StreamBytes(segs, tail);
            Decode(m, past) == StreamRun(segs, 0, |m|, 0)
  {
    hide Decode, OpenStream, Closed, StreamRun;
    AnySender(segs, tail, past);
  }

  /** A window that goes on behind its last packet in any way, as long as no PSB begins there: what is logged
      is what the packets give, then what the bytes behind them give if they are read as packets. */
  lemma {:induction false} OpenWindow(segs: seq<Segment>, tail: seq<Byte>, past: Byte)
    requires OpenStream(segs, tail) && segs != []
    ensures Decode(StreamBytes(segs, tail), past).ips ==
            GotAll(Packets(segs), 0) + Walk(tail, past, 0, LastGotAll(Packets(segs), 0)).ips
  {
    hide Scan, Walk, OpenStream, StreamOffsets, GotAll, LastGotAll, Packets;
    var m := StreamBytes(segs, tail);
    assert m[0..] == m;
    ScanStream(m, past, 0, 0, segs, tail);
    TailAtEnd(segs, tail);
    assert m == m[..|m| - |tail|] + tail;
    WalkShift(m[..|m| - |tail|], tail, past, 0, LastGotAll(Packets(segs), 0));
  }

  lemma {:induction false} OneSegment(ks: seq<Packet>, tail: seq<Byte>)
    requires ks != [] && ks[0] == Psb && FormedAll(ks) && NoPsb(tail, 0, |tail|)
    ensures var segs := [Segment([], ks)];
            && OpenStream(segs, tail) && Packets(segs) == ks && StreamBytes(segs, tail) == EncodeAll(ks) + tail
            && forall p: nat :: StreamOffsets(segs, p) == Offsets(ks, p)
  {
    hide EncodeAll, FormedAll, PsbAt, Offsets;
    var segs := [Segment([], ks)];
    assert segs[1..] == [];
    assert StreamBytes(segs[1..], tail) == tail && Packets(segs[1..]) == [];
    assert StreamBytes(segs, tail) == [] + (EncodeAll(ks) + tail);
    assert OpenStream(segs[1..], tail);
    forall p: nat
      ensures StreamOffsets(segs, p) == Offsets(ks, p)
    {
      assert StreamOffsets(segs[1..], p + |EncodeAll(ks)|) == [];
    }
  }

  /** Round trip of one packet list that starts with a PSB. */
  lemma {:induction false} RoundTrip(ks: seq<Packet>, past: Byte)
    requires ks != [] && ks[0] == Psb && LegalAll(ks, 0)
    ensures var r := Decode(EncodeAll(ks), past);
            && r.visits == Offsets(ks, 0)
            && r.ips == ReportsAll(ks)
            && r.last == LastAfterAll(ks, 0)
            && r.pos == |EncodeAll(ks)|
  {
    hide Scan, Offsets, ReportsAll, LastAfterAll, EncodeAll, LegalAll, FormedAll, OpenStream;
    LegalIsFormed(ks, 0);
    OneSegment(ks, []);
    assert EncodeAll(ks) + [] == EncodeAll(ks);
    StreamRoundTrip([Segment([], ks)], [], past);
  }
}
