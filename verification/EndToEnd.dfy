/** From trace bytes in the ring to counters in the AFL map: the pipeline theorems put together. */
module EndToEnd {
  import opened Words
  import opened Coverage
  import opened PtCuts
  import opened PtDecoder
  import opened PtPackets
  import opened PtStreams
  import TracePipeline

  /** All IPs that decoding the buffers one after the other logs. */
  function IpsOf(bufs: seq<seq<Byte>>): seq<Word> {
    if bufs == [] then [] else IpsOf(bufs[..|bufs| - 1]) + Decode(bufs[|bufs| - 1], 0).ips
  }

  lemma {:induction false} FeedBuffersIsFeed(c: Client, bufs: seq<seq<Byte>>)
    requires c.Valid()
    ensures TracePipeline.FeedBuffers(c, bufs) == Feed(c, IpsOf(bufs))
    decreases |bufs|
  {
    hide Decode, Feed;
    if bufs == [] {
      FeedConcat(c, [], []);
    } else {
      var n := |bufs| - 1;
      FeedBuffersIsFeed(c, bufs[..n]);
      FeedConcat(c, IpsOf(bufs[..n]), Decode(bufs[n], 0).ips);
    }
  }

  /**
    * In every state of every run of the pipeline, each cell of a live map is its initial value plus the
    * number of hashed transitions to it among the IPs found in the processed stream windows, modulo 256.
    */
  lemma {:induction false} TraceToHistogram(ss: seq<TracePipeline.State>, es: seq<TracePipeline.Step>, c: Client,
                                            i: nat, cell: nat)
    requires TracePipeline.IsRun(ss, es, c) && i < |ss| && c.Live? && c.Valid() && cell < MAP_SIZE
    ensures var s := ss[i];
            && |s.fates| <= |s.records| && s.cov.Live? && s.cov.Valid()
            && var ips := IpsOf(TracePipeline.Windows(s.records, s.fates, s.stream));
               s.cov.st.cells[cell] == (c.st.cells[cell] + multiset(Edges(ips, c.st.prev))[cell]) % 256
  {
    hide TracePipeline.IsRun, TracePipeline.Windows, IpsOf, TracePipeline.FeedBuffers, LogAll, Edges;
    TracePipeline.PipelineSafety(ss, es, c, i);
    var s := ss[i];
    var ips := IpsOf(TracePipeline.Windows(s.records, s.fates, s.stream));
    FeedBuffersIsFeed(c, TracePipeline.Windows(s.records, s.fates, s.stream));
    MapIsHistogram(c.st, ips, cell);
  }

  /** How a window ends behind its last complete packet: with bytes that do not decode, or inside a packet. */
  datatype Ending = Garbage(bytes: seq<Byte>) | Cut(packet: Packet, n: nat)

  /** What a sender put into one window. */
  datatype Emission = Emission(segs: seq<Segment>, end: Ending) {
    predicate Valid() {
      && OpenStream(segs, Tail())
      && match end
         case Garbage(bytes) => Closed(segs, bytes)
         case Cut(k, n) => segs != [] && Formed(k) && IsCut(k, n)
    }

    function Tail(): seq<Byte> {
      match end
      case Garbage(bytes) => bytes
      case Cut(k, n) => if n <= |Encode(k)| then Encode(k)[..n] else []
    }

    function Bytes(): seq<Byte> {
      StreamBytes(segs, Tail())
    }

    /** The IPs a decoder logs for a cut packet at the end, its last IP being `last`. */
    function EndIps(last: Word): seq<Word> {
      match end
      case Garbage(_) => []
      case Cut(k, n) => if IsCut(k, n) then CutIps(k, n, 0, last) else []
    }

    /** The IPs that arrive, and those that the complete packets report. */
    function Arrived(): seq<Word> {
      GotAll(Packets(segs), 0) + EndIps(LastGotAll(Packets(segs), 0))
    }

    function Reported(): seq<Word> {
      ReportsAll(Packets(segs)) + EndIps(LastAfterAll(Packets(segs), 0))
    }
  }

  lemma {:induction false} EmissionArrives(e: Emission)
    requires e.Valid()
    ensures Decode(e.Bytes(), 0).ips == e.Arrived()
  {
    hide Decode, OpenStream, Closed, Formed, CutIps, GotAll, LastGotAll, StreamBytes;
    match e.end
    case Garbage(bytes) => AnySender(e.segs, bytes, 0);
    case Cut(k, n) => CutWindow(e.segs, k, n, 0);
  }

  predicate Emitted(ems: seq<Emission>, bufs: seq<seq<Byte>>) {
    && |ems| == |bufs|
    && forall k :: 0 <= k < |ems| ==> ems[k].Valid() && bufs[k] == ems[k].Bytes()
  }

  /** The IPs that arrive from all windows, in order. */
  function ArrivedAll(ems: seq<Emission>): seq<Word> {
    if ems == [] then [] else ArrivedAll(ems[..|ems| - 1]) + ems[|ems| - 1].Arrived()
  }

  function ReportedAll(ems: seq<Emission>): seq<Word> {
    if ems == [] then [] else ReportedAll(ems[..|ems| - 1]) + ems[|ems| - 1].Reported()
  }

  lemma {:induction false} IpsArrive(ems: seq<Emission>, bufs: seq<seq<Byte>>)
    requires Emitted(ems, bufs)
    ensures IpsOf(bufs) == ArrivedAll(ems)
    decreases |ems|
  {
    hide Decode;
    if ems != [] {
      var n := |ems| - 1;
      assert Emitted(ems[..n], bufs[..n]);
      IpsArrive(ems[..n], bufs[..n]);
      EmissionArrives(ems[n]);
    }
  }

  /** In each window the IP lengths suit a last IP that starts at 0 and is carried along. */
  predicate LegalEmissions(ems: seq<Emission>) {
    forall k :: 0 <= k < |ems| ==> LegalAll(Packets(ems[k].segs), 0)
  }

  lemma {:induction false} LegalEmissionArrives(e: Emission)
    requires e.Valid() && LegalAll(Packets(e.segs), 0)
    ensures e.Arrived() == e.Reported()
  {
    hide OpenStream, Closed, GotAll, LastGotAll, ReportsAll, LastAfterAll, FormedAll, LegalAll, CutIps, Encode;
    OpenIsFormed(e.segs, e.Tail());
    GotAllExactly(Packets(e.segs), 0);
  }

  lemma {:induction false} LegalArrives(ems: seq<Emission>)
    requires LegalEmissions(ems) && forall k :: 0 <= k < |ems| ==> ems[k].Valid()
    ensures ArrivedAll(ems) == ReportedAll(ems)
    decreases |ems|
  {
    hide LegalAll, Packets, Emission.Valid, Emission.Arrived, Emission.Reported;
    if ems != [] {
      var n := |ems| - 1;
      LegalArrives(ems[..n]);
      LegalEmissionArrives(ems[n]);
    }
  }

  /**
    * Windows of any sender, ending in garbage or inside a packet: the map is the histogram of the IPs that
    * arrive.
    */
  lemma {:induction false} WindowsToHistogram(ss: seq<TracePipeline.State>, es: seq<TracePipeline.Step>, c: Client,
                                              i: nat, ems: seq<Emission>, cell: nat)
    requires TracePipeline.IsRun(ss, es, c) && i < |ss| && c.Live? && c.Valid() && cell < MAP_SIZE
    requires Emitted(ems, ss[i].delivered)
    ensures ss[i].cov.Live? && ss[i].cov.Valid()
    ensures ss[i].cov.st.cells[cell] == (c.st.cells[cell] + multiset(Edges(ArrivedAll(ems), c.st.prev))[cell]) % 256
  {
    hide TracePipeline.IsRun, TracePipeline.Windows, IpsOf, ArrivedAll, Edges, Emitted;
    TraceToHistogram(ss, es, c, i, cell);
    TracePipeline.PipelineSafety(ss, es, c, i);
    IpsArrive(ems, ss[i].delivered);
  }

  /** If the packets in the windows are legal for the decoder, it is the histogram of the IPs they report. */
  lemma {:induction false} PacketsToHistogram(ss: seq<TracePipeline.State>, es: seq<TracePipeline.Step>, c: Client,
                                              i: nat, ems: seq<Emission>, cell: nat)
    requires TracePipeline.IsRun(ss, es, c) && i < |ss| && c.Live? && c.Valid() && cell < MAP_SIZE
    requires Emitted(ems, ss[i].delivered) && LegalEmissions(ems)
    ensures ss[i].cov.Live? && ss[i].cov.Valid()
    ensures ss[i].cov.st.cells[cell] == (c.st.cells[cell] + multiset(Edges(ReportedAll(ems), c.st.prev))[cell]) % 256
  {
    hide TracePipeline.IsRun, ArrivedAll, ReportedAll, Edges, LegalEmissions;
    WindowsToHistogram(ss, es, c, i, ems, cell);
    LegalArrives(ems);
  }
}
