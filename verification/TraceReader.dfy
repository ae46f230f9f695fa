/** `check_buffer` as the code runs it between two turns of the producer, on real buffers and objects. */
module TraceReader {
  import opened Words
  import Coverage
  import PtDecoder
  import PtTheorems
  import opened AuxRing
  import opened TracePipeline

  /** Starting a copy and finishing it in one go, as `PerfAuxBuffer` does, is a run of the pipeline. */
  lemma {:induction false} CopyAtOnce(s: State, c: Coverage.Client, buf: seq<Byte>) returns (t: State)
    requires Inv(s, c) && AtRecord(s) && AuxSize(s.records[|s.fates|]) != 0
    requires |buf| == s.records[|s.fates|].size && IsWindow(buf, s.ring, s.records[|s.fates|].offset)
    ensures t == s.(phase := Copying(s.phase.known, s.phase.head, s.phase.tail, buf)) && Inv(t, c)
  {
    var s0 := s.(phase := Copying(s.phase.known, s.phase.head, s.phase.tail, []));
    LocalKeeps(s, s0, BeginCopy, c);
    WindowIsStream(s0, c, buf);
    hide RingInv, RecordsInv, AccountInv, FeedBuffers;
    t := s.(phase := Copying(s.phase.known, s.phase.head, s.phase.tail, buf));
  }

  /** A consumer at a record that announces bytes: the two copies of `PerfAuxBuffer` suffice for it. */
  lemma {:induction false} AuxFits(s: State, c: Coverage.Client)
    requires Inv(s, c) && AtRecord(s) && AuxSize(s.records[|s.fates|]) != 0
    ensures var r := s.records[|s.fates|];
            r.Aux? && r.size > 0 && |s.ring| > 0 && r.offset % |s.ring| + r.size <= 2 * |s.ring|
  {
    hide FeedBuffers, BytesOf, Windows, Pos, AuxEnd;
    RecordsAnnounced(s);
    assert s.auxTail <= s.records[|s.fates|].offset;
  }

  /** The assertion in `check_buffer`, at the point where a buffer has been decoded. */
  lemma {:induction false} AssertHolds(s: State, c: Coverage.Client)
    requires Inv(s, c) && s.phase.Copying? && |s.phase.buf| == s.records[|s.fates|].size
    ensures s.auxTail + s.records[|s.fates|].size <= s.auxHead && s.cov.Valid()
  {
    hide FeedBuffers, BytesOf, Windows, Pos;
    AuxEndMono(s.records, |s.fates| + 1, |s.records|);
  }

  lemma {:induction false} DeliverAt(s: State, t: State, c: Coverage.Client)
    requires Inv(s, c) && s.phase.Copying? && |s.phase.buf| == s.records[|s.fates|].size
    requires s.cov.Valid() && s.auxTail + s.records[|s.fates|].size <= s.auxHead
    requires t == s.(cov := Coverage.Feed(s.cov, PtDecoder.Decode(s.phase.buf, 0).ips),
                     delivered := s.delivered + [s.phase.buf],
                     auxTail := s.auxTail + s.records[|s.fates|].size, fates := s.fates + [true],
                     phase := Looping(s.phase.known, s.phase.head, s.phase.tail + s.records[|s.fates|].len))
    ensures Inv(t, c)
  {
    hide Coverage.Feed, PtDecoder.Decode, RingInv, RecordsInv, AccountInv, FeedBuffers;
    assert Next(s, t, Deliver);
    DeliverKeeps(s, t, Deliver, c);
  }

  lemma {:induction false} SnapshotFacts(s: State, c: Coverage.Client)
    requires Inv(s, c) && s.phase.Idle?
    ensures |s.fates| <= |s.records|
    ensures s.dataTail == Pos(s.records, |s.records|) <==> |s.fates| == |s.records|
    ensures Inv(s.(phase := Looping(|s.records|, Pos(s.records, |s.records|), s.dataTail)), c)
  {
    hide FeedBuffers, BytesOf, Windows, Pos, AuxEnd;
    PosMono(s.records, |s.fates|, |s.records|);
  }

  lemma {:induction false} LoopFacts(s: State, c: Coverage.Client)
    requires Inv(s, c) && s.phase.Looping? && s.phase.known == |s.records|
    ensures |s.fates| <= |s.records|
    ensures if s.phase.head != s.phase.tail then AtRecord(s) else |s.fates| == |s.records|
  {
    hide FeedBuffers, BytesOf, Windows, Pos, AuxEnd;
    LoopGuard(s, c);
  }

  lemma {:induction false} AbortKeeps(s: State, t: State, c: Coverage.Client)
    requires Inv(s, c) && AtRecord(s) && s.records[|s.fates|].Unhandled? && t == s.(phase := Aborted)
    ensures Inv(t, c)
  {
    hide Inv;
    assert Next(s, t, SkipRecord);
    SkipKeeps(s, t, SkipRecord, c);
  }

  lemma {:induction false} PassKeeps(s: State, t: State, c: Coverage.Client)
    requires Inv(s, c) && AtRecord(s) && !s.records[|s.fates|].Unhandled? && AuxSize(s.records[|s.fates|]) == 0
    requires t == s.(fates := s.fates + [true],
                     phase := Looping(s.phase.known, s.phase.head, s.phase.tail + s.records[|s.fates|].len))
    ensures Inv(t, c)
  {
    hide Inv;
    assert Next(s, t, SkipRecord);
    SkipKeeps(s, t, SkipRecord, c);
  }

  /** Reading `data_head` again and storing it, with nothing published since the snapshot. */
  lemma {:induction false} StoreQuietly(s: State, t: State, c: Coverage.Client)
    requires Inv(s, c) && s.phase.Looping? && s.phase.head == s.phase.tail && |s.fates| == |s.records| == s.phase.known
    requires t == s.(phase := Idle, dataTail := Pos(s.records, |s.records|))
    ensures Inv(t, c)
  {
    hide Inv, Pos;
    var u := s.(phase := Storing(|s.records|, |s.records|, Pos(s.records, |s.records|)));
    LocalKeeps(s, u, ReadHead, c);
    assert s.fates + seq(0, _ => false) == s.fates;
    StoreKeeps(u, t, StoreTail, c);
  }

  class Reader {
    const ring: array<Byte>
    var auxHead: nat
    var auxTail: nat
    var dataTail: nat
    var records: seq<Record>
    /** Number of the record at `data_tail`. */
    var consumed: nat
    ghost var stream: seq<Byte>
    ghost var fates: seq<bool>
    ghost var delivered: seq<seq<Byte>>

    constructor (ring: array<Byte>)
      ensures this.ring == ring && auxHead == auxTail == dataTail == consumed == 0
      ensures records == [] && stream == [] && fates == [] && delivered == []
    {
      this.ring := ring;
      auxHead, auxTail, dataTail, consumed, records := 0, 0, 0, 0, [];
      stream, fates, delivered := [], [], [];
    }

    ghost function View(phase: Phase, cov: Coverage.Client): State
      reads this, ring
    {
      State(ring[..], auxHead, auxTail, dataTail, records, phase, cov, stream, fates, delivered)
    }

    /** The `PERF_RECORD_AUX` branch for record `i`, which announces bytes: linearise, decode, assert and
        move `aux_tail`. */
    method ProcessAux(i: nat, client: Coverage.AflClient, past: Byte, ghost c: Coverage.Client, ghost phase: Phase)
      requires client.Valid() && client.area as object? != ring
      requires Inv(View(phase, client.View()), c) && AtRecord(View(phase, client.View()))
      requires i == |fates| && AuxSize(records[i]) != 0
      modifies this`auxTail, this`fates, this`delivered, client`prevLoc, client.area
      ensures client.Valid() && fates == old(fates) + [true] && ring[..] == old(ring[..])
      ensures Inv(View(Looping(phase.known, phase.head, phase.tail + records[i].len), client.View()), c)
    {
      hide Inv, PtDecoder.Decode, Coverage.Feed;
      ghost var s := View(phase, client.View());
      AuxFits(s, c);
      var r := records[i];
      var buf := Linearise(ring, r.offset, r.size);
      ghost var s1 := CopyAtOnce(s, c, buf[..]);
      var decoder := new PtDecoder.Decoder();
      decoder.DecodeBuffer(buf[..], past, client);
      PtTheorems.PastByteIrrelevant(buf[..], past, 0);
      AssertHolds(s1, c);
      hide AtRecord;
      assert auxTail + r.size <= auxHead;
      auxTail := auxTail + r.size;
      fates := fates + [true];
      delivered := delivered + [buf[..]];
      DeliverAt(s1, View(Looping(phase.known, phase.head, phase.tail + r.len), client.View()), c);
    }

    /**
      * One call of `check_buffer` that the producer does not interrupt.  It finishes exactly when no new
      * record is of an unhandled type; then every new record has been processed once, in order, and
      * `data_tail` has caught up.  The C assertion on `aux_tail` is proved where it stands.
      */
    method CheckBuffer(client: Coverage.AflClient, past: Byte, ghost c: Coverage.Client) returns (finished: bool)
      requires client.Valid() && client.area as object? != ring
      requires Inv(View(Idle, client.View()), c) && consumed == |fates|
      modifies this`auxTail, this`dataTail, this`consumed, this`fates, this`delivered, client`prevLoc, client.area
      ensures client.Valid() && ring[..] == old(ring[..])
      ensures finished <==> forall j :: |old(fates)| <= j < |records| ==> !records[j].Unhandled?
      ensures finished ==>
                && Inv(View(Idle, client.View()), c) && consumed == |fates| == |records|
                && |old(fates)| <= |records| && fates == old(fates) + seq(|records| - |old(fates)|, _ => true)
                && dataTail == Pos(records, |records|)
      ensures !finished ==> Inv(View(Aborted, client.View()), c) && dataTail == old(dataTail)
    {
      hide Inv, Pos;
      SnapshotFacts(View(Idle, client.View()), c);
      var head: nat, tail: nat, i: nat := Pos(records, |records|), dataTail, consumed;
      ghost var known := |records|;
      assert fates == old(fates) + seq(i - |old(fates)|, _ => true);
      if head == tail {
        return true;
      }
      while head != tail
        invariant client.Valid() && ring[..] == old(ring[..])
        invariant Inv(View(Looping(known, head, tail), client.View()), c)
        invariant |old(fates)| <= i == |fates| <= |records| && dataTail == old(dataTail)
        invariant fates == old(fates) + seq(i - |old(fates)|, _ => true)
        invariant forall j :: |old(fates)| <= j < i ==> !records[j].Unhandled?
        decreases |records| - i
      {
        ghost var s := View(Looping(known, head, tail), client.View());
        LoopFacts(s, c);
        var r := records[i];
        if r.Unhandled? {
          AbortKeeps(s, View(Aborted, client.View()), c);
          return false;
        }
        if r.Aux? && r.size != 0 {
          ProcessAux(i, client, past, c, s.phase);
        } else {
          fates := fates + [true];
          ghost var t := View(Looping(known, head, tail + r.len), client.View());
          PassKeeps(s, t, c);
        }
        tail := tail + r.len;
        i := i + 1;
        assert fates == old(fates) + seq(i - |old(fates)|, _ => true);
      }
      ghost var s := View(Looping(known, head, tail), client.View());
      LoopFacts(s, c);
      dataTail := Pos(records, |records|);
      consumed := i;
      StoreQuietly(s, View(Idle, client.View()), c);
      finished := true;
    }
  }
}
