/**
  * The trace pipeline as a state machine: the kernel writes trace bytes into a ring and announces
  * them by records, `check_buffer` hands each announced window to the decoder, and the decoder feeds
  * the coverage map.
  */
module TracePipeline {
  import opened Prelude
  import opened Words
  import opened Coverage
  import opened PtDecoder
  import opened AuxRing

  /** A record of the regular ring; `len` is its size there in bytes. */
  datatype Record =
    | Aux(len: nat, offset: nat, size: nat)
    | ItraceStart(len: nat)
    | Unhandled(len: nat)

  function AuxSize(r: Record): nat {
    if r.Aux? then r.size else 0
  }

  /** Where `check_buffer` is.  `head` and `tail` are its local copies of `data_head` and `data_tail`,
      `known` is the number of records that existed when `head` was read. */
  datatype Phase =
    | Idle
    | Looping(known: nat, head: nat, tail: nat)
    | Copying(known: nat, head: nat, tail: nat, buf: seq<Byte>)
    | Storing(known: nat, newKnown: nat, newTail: nat)
    | AssertFailed
    | Aborted

  /**
    * `ring`, `auxHead`, `auxTail` and `dataTail` are shared memory; `records` are all records published
    * so far.  The rest is history: `stream` is every trace byte written, `fates[i]` says whether record
    * `i` was processed (true) or passed over (false), `delivered` are the buffers decoded.
    */
  datatype State = State(
    ring: seq<Byte>,
    auxHead: nat,
    auxTail: nat,
    dataTail: nat,
    records: seq<Record>,
    phase: Phase,
    cov: Client,
    stream: seq<Byte>,
    fates: seq<bool>,
    delivered: seq<seq<Byte>>)

  /** Byte offset of record `i` in the regular ring; `Pos(rs, |rs|)` is `data_head`. */
  function Pos(rs: seq<Record>, i: nat): nat
    requires i <= |rs|
  {
    if i == 0 then 0 else Pos(rs, i - 1) + rs[i - 1].len
  }

  /** Trace bytes announced by the first `i` records. */
  function AuxEnd(rs: seq<Record>, i: nat): nat
    requires i <= |rs|
  {
    if i == 0 then 0 else AuxEnd(rs, i - 1) + AuxSize(rs[i - 1])
  }

  /** Trace bytes of the records whose fate is `f`. */
  function BytesOf(rs: seq<Record>, fates: seq<bool>, f: bool): nat
    requires |fates| <= |rs|
  {
    if fates == [] then 0
    else
      var n := |fates| - 1;
      BytesOf(rs, fates[..n], f) + if fates[n] == f then AuxSize(rs[n]) else 0
  }

  /** The stream windows announced by the processed AUX records, in order. */
  function Windows(rs: seq<Record>, fates: seq<bool>, stream: seq<Byte>): seq<seq<Byte>>
    requires |fates| <= |rs|
  {
    if fates == [] then []
    else
      var n := |fates| - 1;
      var before := Windows(rs, fates[..n], stream);
      if fates[n] && AuxSize(rs[n]) > 0 && rs[n].offset + rs[n].size <= |stream|
      then before + [stream[rs[n].offset..rs[n].offset + rs[n].size]]
      else before
  }

  /** The coverage effect of decoding buffers one after the other. */
  function FeedBuffers(c: Client, bufs: seq<seq<Byte>>): (c': Client)
    requires c.Valid()
    ensures c'.Valid()
  {
    if bufs == [] then c
    else Feed(FeedBuffers(c, bufs[..|bufs| - 1]), Decode(bufs[|bufs| - 1], 0).ips)
  }

  predicate Init(s: State, c: Client) {
    && |s.ring| > 0
    && s.auxHead == s.auxTail == s.dataTail == 0
    && s.records == [] && s.phase == Idle && s.cov == c && c.Valid()
    && s.stream == [] && s.fates == [] && s.delivered == []
  }

  datatype Step =
    | Write(b: Byte)
    | PublishHead(h: nat)
    | PublishRecord(r: Record)
    | Snapshot
    | BeginCopy
    | CopyByte
    | Deliver
    | SkipRecord
    | ReadHead
    | StoreTail

  /** The next record that the loop of `check_buffer` looks at. */
  predicate AtRecord(s: State) {
    && s.phase.Looping? && s.phase.head != s.phase.tail
    && |s.fates| < |s.records| && Pos(s.records, |s.fates|) == s.phase.tail
  }

  ghost predicate Next(s: State, t: State, e: Step) {
    match e
    // the kernel: it never overruns unread bytes, and publishes aux_head before the AUX record
    case Write(b) =>
      && |s.ring| > 0 && |s.stream| < s.auxTail + |s.ring|
      && t == s.(ring := s.ring[|s.stream| % |s.ring| := b], stream := s.stream + [b])
    case PublishHead(h) =>
      && s.auxHead <= h <= |s.stream|
      && t == s.(auxHead := h)
    case PublishRecord(r) =>
      && r.len > 0
      && (r.Aux? ==> r.offset == AuxEnd(s.records, |s.records|) && r.offset + r.size <= s.auxHead)
      && t == s.(records := s.records + [r])
    // check_buffer
    case Snapshot =>
      var head := Pos(s.records, |s.records|);
      && s.phase.Idle?
      && t == if head == s.dataTail then s else s.(phase := Looping(|s.records|, head, s.dataTail))
    case BeginCopy =>
      && AtRecord(s) && AuxSize(s.records[|s.fates|]) != 0
      && t == s.(phase := Copying(s.phase.known, s.phase.head, s.phase.tail, []))
    case CopyByte =>
      && s.phase.Copying? && |s.fates| < |s.records| && |s.ring| > 0
      && s.records[|s.fates|].Aux? && |s.phase.buf| < s.records[|s.fates|].size
      && t == s.(phase := s.phase.(buf := s.phase.buf
                + [s.ring[(s.records[|s.fates|].offset + |s.phase.buf|) % |s.ring|]]))
    case Deliver =>
      && s.phase.Copying? && |s.fates| < |s.records| && s.cov.Valid()
      && var r := s.records[|s.fates|];
      && r.Aux? && |s.phase.buf| == r.size
      && var fed := s.(cov := Feed(s.cov, Decode(s.phase.buf, 0).ips), delivered := s.delivered + [s.phase.buf]);
      && t == if s.auxTail + r.size <= s.auxHead
              then fed.(auxTail := s.auxTail + r.size, fates := s.fates + [true],
                        phase := Looping(s.phase.known, s.phase.head, s.phase.tail + r.len))
              else fed.(phase := AssertFailed)
    case SkipRecord =>
      && AtRecord(s) && AuxSize(s.records[|s.fates|]) == 0
      && var r := s.records[|s.fates|];
      && t == if r.Unhandled? then s.(phase := Aborted)
              else s.(fates := s.fates + [true],
                      phase := Looping(s.phase.known, s.phase.head, s.phase.tail + r.len))
    case ReadHead =>
      && s.phase.Looping? && s.phase.head == s.phase.tail
      && t == s.(phase := Storing(s.phase.known, |s.records|, Pos(s.records, |s.records|)))
    case StoreTail =>
      && s.phase.Storing? && s.phase.known <= s.phase.newKnown
      && t == s.(dataTail := s.phase.newTail, phase := Idle,
                 fates := s.fates + seq(s.phase.newKnown - s.phase.known, _ => false))
  }

  /** The last `|ring|` bytes of the stream are in the ring and unread bytes are among them. */
  ghost predicate RingInv(s: State) {
    && |s.ring| > 0
    && s.auxTail <= s.auxHead <= |s.stream| <= s.auxTail + |s.ring|
    && forall i :: 0 <= i < |s.stream| && |s.stream| - |s.ring| <= i ==> s.ring[i % |s.ring|] == s.stream[i]
  }

  /** AUX records announce consecutive windows below `aux_head`. */
  ghost predicate RecordsInv(s: State) {
    && AuxEnd(s.records, |s.records|) <= s.auxHead
    && forall i :: 0 <= i < |s.records| ==>
         s.records[i].len > 0 && (s.records[i].Aux? ==> s.records[i].offset == AuxEnd(s.records, i))
  }

  ghost predicate PhaseInv(s: State) {
    && |s.fates| <= |s.records|
    && match s.phase
       case Idle => s.dataTail == Pos(s.records, |s.fates|)
       case Looping(known, head, tail) =>
         |s.fates| <= known <= |s.records| && head == Pos(s.records, known) && tail == Pos(s.records, |s.fates|)
       case Copying(known, head, tail, buf) =>
         && |s.fates| < known <= |s.records| && head == Pos(s.records, known) && tail == Pos(s.records, |s.fates|)
         && var r := s.records[|s.fates|];
         && r.Aux? && r.size > 0 && |buf| <= r.size && r.offset + r.size <= |s.stream|
         && buf == s.stream[r.offset..r.offset + |buf|]
       case Storing(known, newKnown, newTail) =>
         known == |s.fates| <= newKnown <= |s.records| && newTail == Pos(s.records, newKnown)
       case AssertFailed => false
       case Aborted => true
  }

  /** Every announced byte up to the cursor was either consumed or passed over. */
  ghost predicate AccountInv(s: State) {
    && |s.fates| <= |s.records|
    && s.auxTail == BytesOf(s.records, s.fates, true)
    && AuxEnd(s.records, |s.fates|) == s.auxTail + BytesOf(s.records, s.fates, false)
    && s.delivered == Windows(s.records, s.fates, s.stream)
  }

  /** What every reachable state satisfies, the history variables tied to the shared ones. */
  ghost predicate Inv(s: State, c: Client) {
    && RingInv(s)
    && RecordsInv(s)
    && PhaseInv(s)
    && AccountInv(s)
    && c.Valid() && s.cov.Valid() && s.cov == FeedBuffers(c, s.delivered)
  }

  // ---- facts about the history functions ----

  lemma {:induction false} AuxEndMono(rs: seq<Record>, i: nat, j: nat)
    requires i <= j <= |rs|
    ensures AuxEnd(rs, i) <= AuxEnd(rs, j)
    decreases j
  {
    if i < j {
      AuxEndMono(rs, i, j - 1);
    }
  }

  lemma {:induction false} PosMono(rs: seq<Record>, i: nat, j: nat)
    requires i <= j <= |rs| && forall k :: 0 <= k < |rs| ==> rs[k].len > 0
    ensures Pos(rs, i) <= Pos(rs, j) && (i < j ==> Pos(rs, i) < Pos(rs, j))
    decreases j
  {
    if i < j {
      PosMono(rs, i, j - 1);
    }
  }

  /** Publishing a record changes nothing about the earlier ones. */
  lemma {:induction false} PrefixStable(rs: seq<Record>, r: Record, i: nat)
    requires i <= |rs|
    ensures Pos(rs + [r], i) == Pos(rs, i) && AuxEnd(rs + [r], i) == AuxEnd(rs, i)
  {
    if i > 0 {
      PrefixStable(rs, r, i - 1);
    }
  }

  lemma {:induction false} HistoryStable(rs: seq<Record>, r: Record, fates: seq<bool>, stream: seq<Byte>)
    requires |fates| <= |rs|
    ensures forall f :: BytesOf(rs + [r], fates, f) == BytesOf(rs, fates, f)
    ensures Windows(rs + [r], fates, stream) == Windows(rs, fates, stream)
    decreases |fates|
  {
    if fates != [] {
      HistoryStable(rs, r, fates[..|fates| - 1], stream);
    }
  }

  /** Every announced window lies inside the stream. */
  ghost predicate Announced(rs: seq<Record>, n: nat) {
    forall i :: 0 <= i < |rs| && rs[i].Aux? ==> rs[i].offset + rs[i].size <= n
  }

  lemma {:induction false} RecordsAnnounced(s: State)
    requires RecordsInv(s) && RingInv(s)
    ensures Announced(s.records, |s.stream|)
  {
    forall i | 0 <= i < |s.records| && s.records[i].Aux?
      ensures s.records[i].offset + s.records[i].size <= |s.stream|
    {
      AuxEndMono(s.records, i + 1, |s.records|);
    }
  }

  lemma {:induction false} WindowsGrow(rs: seq<Record>, fates: seq<bool>, stream: seq<Byte>, b: Byte)
    requires |fates| <= |rs| && Announced(rs, |stream|)
    ensures Windows(rs, fates, stream + [b]) == Windows(rs, fates, stream)
    decreases |fates|
  {
    if fates != [] {
      var n := |fates| - 1;
      WindowsGrow(rs, fates[..n], stream, b);
      if rs[n].Aux? {
        var from, to := rs[n].offset, rs[n].offset + rs[n].size;
        assert (stream + [b])[from..to] == stream[from..to];
      }
    }
  }

  /** Passing over records moves the cursor but delivers nothing. */
  lemma {:induction false} PassOver(rs: seq<Record>, fates: seq<bool>, stream: seq<Byte>, n: nat)
    requires |fates| + n <= |rs|
    ensures var g := fates + seq(n, _ => false);
            && BytesOf(rs, g, true) == BytesOf(rs, fates, true)
            && BytesOf(rs, g, false) - BytesOf(rs, fates, false) == AuxEnd(rs, |fates| + n) - AuxEnd(rs, |fates|)
            && Windows(rs, g, stream) == Windows(rs, fates, stream)
    decreases n
  {
    var g := fates + seq(n, _ => false);
    if n == 0 {
      assert g == fates;
    } else {
      PassOver(rs, fates, stream, n - 1);
      assert g[..|g| - 1] == fates + seq(n - 1, _ => false);
    }
  }

  lemma {:induction false} DistinctPlaces(i: nat, j: nat, n: nat)
    requires i < j < i + n
    ensures i % n != j % n
  {
    if i % n == j % n {
      var d := j / n - i / n;
      assert j - i == d * n;
      MulBound(d, n);
    }
  }

  // ---- every step keeps the invariant ----

  lemma {:induction false} WriteKeeps(s: State, t: State, e: Step, c: Client)
    requires Inv(s, c) && e.Write? && Next(s, t, e)
    ensures Inv(t, c)
  {
    hide FeedBuffers, AuxEnd, Pos, BytesOf, Windows;
    forall i | 0 <= i < |t.stream| && |t.stream| - |t.ring| <= i
      ensures t.ring[i % |t.ring|] == t.stream[i]
    {
      if i < |s.stream| {
        DistinctPlaces(i, |s.stream|, |s.ring|);
      }
    }
    RecordsAnnounced(s);
    WindowsGrow(s.records, s.fates, s.stream, e.b);
    if s.phase.Copying? {
      var r := s.records[|s.fates|];
      assert t.stream[r.offset..r.offset + |s.phase.buf|] == s.stream[r.offset..r.offset + |s.phase.buf|];
    }
  }

  /** A new record leaves the cursors into the earlier ones where they are. */
  lemma {:induction false} CursorsStable(rs: seq<Record>, r: Record)
    ensures forall i: nat :: i <= |rs| ==> Pos(rs + [r], i) == Pos(rs, i) && AuxEnd(rs + [r], i) == AuxEnd(rs, i)
  {
    hide Pos, AuxEnd;
    forall i: nat | i <= |rs|
      ensures Pos(rs + [r], i) == Pos(rs, i) && AuxEnd(rs + [r], i) == AuxEnd(rs, i)
    {
      PrefixStable(rs, r, i);
    }
  }

  lemma {:induction false} AuxEndSnoc(rs: seq<Record>, r: Record)
    ensures AuxEnd(rs + [r], |rs| + 1) == AuxEnd(rs, |rs|) + AuxSize(r)
  {
    PrefixStable(rs, r, |rs|);
  }

  lemma {:induction false} PublishKeepsRecords(s: State, t: State, r: Record)
    requires RecordsInv(s) && t == s.(records := s.records + [r]) && r.len > 0
    requires r.Aux? ==> r.offset == AuxEnd(s.records, |s.records|) && r.offset + r.size <= s.auxHead
    ensures RecordsInv(t)
  {
    hide Pos, AuxEnd;
    var n := |s.records|;
    CursorsStable(s.records, r);
    AuxEndSnoc(s.records, r);
    forall i | 0 <= i < n + 1
      ensures t.records[i].len > 0 && (t.records[i].Aux? ==> t.records[i].offset == AuxEnd(t.records, i))
    {
      if i < n {
        assert t.records[i] == s.records[i];
      }
    }
  }

  lemma {:induction false} PublishKeepsPhase(s: State, t: State, r: Record)
    requires PhaseInv(s) && t == s.(records := s.records + [r])
    ensures PhaseInv(t)
  {
    hide Pos, AuxEnd;
    CursorsStable(s.records, r);
  }

  lemma {:induction false} PublishRecordKeeps(s: State, t: State, e: Step, c: Client)
    requires Inv(s, c) && e.PublishRecord? && Next(s, t, e)
    ensures Inv(t, c)
  {
    hide FeedBuffers, BytesOf, Windows, Pos, AuxEnd, RecordsInv, PhaseInv;
    assert |s.fates| <= |s.records|;
    HistoryStable(s.records, e.r, s.fates, s.stream);
    CursorsStable(s.records, e.r);
    PublishKeepsRecords(s, t, e.r);
    PublishKeepsPhase(s, t, e.r);
  }

  /** The cursor of a looping consumer is at a record exactly until it reaches its snapshot of the head. */
  lemma {:induction false} LoopGuard(s: State, c: Client)
    requires Inv(s, c) && s.phase.Looping?
    ensures s.phase.head != s.phase.tail <==> |s.fates| < s.phase.known
  {
    hide FeedBuffers, BytesOf, Windows, Pos, AuxEnd;
    PosMono(s.records, |s.fates|, s.phase.known);
  }

  /** The next byte to copy is still in the ring. */
  lemma {:induction false} NextByte(s: State, c: Client)
    requires Inv(s, c) && s.phase.Copying? && |s.phase.buf| < s.records[|s.fates|].size
    ensures var i := s.records[|s.fates|].offset + |s.phase.buf|;
            i < |s.stream| && s.ring[i % |s.ring|] == s.stream[i]
  {
    hide FeedBuffers, BytesOf, Windows, Pos, AuxEnd;
    RecordsAnnounced(s);
    assert s.auxTail <= s.records[|s.fates|].offset;
  }

  /** A byte copied out of the ring is the stream's byte: unread bytes have not been overwritten. */
  lemma {:induction false} CopyByteKeeps(s: State, t: State, e: Step, c: Client)
    requires Inv(s, c) && e.CopyByte? && Next(s, t, e)
    ensures Inv(t, c)
  {
    hide FeedBuffers, BytesOf, Windows, Pos, AuxEnd;
    NextByte(s, c);
    var r := s.records[|s.fates|];
    var i := r.offset + |s.phase.buf|;
    assert s.stream[r.offset..i + 1] == s.stream[r.offset..i] + [s.stream[i]];
  }

  lemma {:induction false} TakeOne(s: State, t: State)
    requires |s.fates| < |s.records| && t.fates == s.fates + [true] && t.records == s.records && t.stream == s.stream
    ensures forall f :: BytesOf(t.records, t.fates, f) ==
              BytesOf(s.records, s.fates, f) + if f then AuxSize(s.records[|s.fates|]) else 0
    ensures var r := s.records[|s.fates|];
            Windows(t.records, t.fates, t.stream) == Windows(s.records, s.fates, s.stream)
            + if AuxSize(r) > 0 && r.offset + r.size <= |s.stream| then [s.stream[r.offset..r.offset + r.size]] else []
  {
    assert t.fates[..|t.fates| - 1] == s.fates;
  }

  lemma {:induction false} FeedSnoc(c: Client, bufs: seq<seq<Byte>>, buf: seq<Byte>)
    requires c.Valid()
    ensures FeedBuffers(c, bufs + [buf]) == Feed(FeedBuffers(c, bufs), Decode(buf, 0).ips)
  {
    hide Feed, Decode;
    assert (bufs + [buf])[..|bufs|] == bufs;
  }

  /** The state after a buffer has been consumed. */
  ghost predicate Delivered(s: State, t: State)
    requires s.phase.Copying? && |s.fates| < |s.records| && s.records[|s.fates|].Aux? && s.cov.Valid()
  {
    var r := s.records[|s.fates|];
    && t == s.(cov := Feed(s.cov, Decode(s.phase.buf, 0).ips), delivered := s.delivered + [s.phase.buf],
               auxTail := s.auxTail + r.size, fates := s.fates + [true],
               phase := Looping(s.phase.known, s.phase.head, s.phase.tail + r.len))
    && |s.phase.buf| == r.size && s.auxTail + r.size <= s.auxHead
  }

  /** The assertion on `aux_tail` holds. */
  lemma {:induction false} AssertPasses(s: State, t: State, e: Step, c: Client)
    requires Inv(s, c) && e.Deliver? && Next(s, t, e)
    ensures s.phase.Copying? && |s.fates| < |s.records| && s.records[|s.fates|].Aux? && Delivered(s, t)
  {
    hide BytesOf, Windows, Feed, Decode, FeedBuffers, Pos;
    var n := |s.fates|;
    AuxEndMono(s.records, n + 1, |s.records|);
    assert AuxEnd(s.records, n + 1) == AuxEnd(s.records, n) + s.records[n].size;
  }

  lemma {:induction false} DeliverAccount(s: State, t: State, c: Client)
    requires Inv(s, c) && s.phase.Copying? && |s.fates| < |s.records| && s.records[|s.fates|].Aux? && Delivered(s, t)
    ensures AccountInv(t) && t.cov.Valid() && t.cov == FeedBuffers(c, t.delivered)
  {
    hide BytesOf, Windows, Feed, Decode, FeedBuffers, Pos, RingInv;
    var n := |s.fates|;
    assert AuxEnd(s.records, n + 1) == AuxEnd(s.records, n) + s.records[n].size;
    hide AuxEnd;
    TakeOne(s, t);
    FeedSnoc(c, s.delivered, s.phase.buf);
  }

  lemma {:induction false} DeliverKeeps(s: State, t: State, e: Step, c: Client)
    requires Inv(s, c) && e.Deliver? && Next(s, t, e)
    ensures Inv(t, c) && t.phase.Looping?
  {
    hide BytesOf, Windows, Feed, Decode, FeedBuffers, AuxEnd, AccountInv;
    AssertPasses(s, t, e, c);
    hide Next;
    DeliverAccount(s, t, c);
    assert Pos(s.records, |s.fates| + 1) == Pos(s.records, |s.fates|) + s.records[|s.fates|].len;
  }

  lemma {:induction false} SkipKeeps(s: State, t: State, e: Step, c: Client)
    requires Inv(s, c) && e.SkipRecord? && Next(s, t, e)
    ensures Inv(t, c)
  {
    hide BytesOf, Windows, FeedBuffers;
    LoopGuard(s, c);
    if !s.records[|s.fates|].Unhandled? {
      TakeOne(s, t);
    }
  }

  lemma {:induction false} StoreKeeps(s: State, t: State, e: Step, c: Client)
    requires Inv(s, c) && e.StoreTail? && Next(s, t, e)
    ensures Inv(t, c)
  {
    hide BytesOf, Windows, FeedBuffers, Pos, AuxEnd;
    PassOver(s.records, s.fates, s.stream, s.phase.newKnown - s.phase.known);
  }

  lemma {:induction false} LocalKeeps(s: State, t: State, e: Step, c: Client)
    requires Inv(s, c) && Next(s, t, e) && (e.PublishHead? || e.Snapshot? || e.BeginCopy? || e.ReadHead?)
    ensures Inv(t, c)
  {
    hide BytesOf, Windows, FeedBuffers, Pos, AuxEnd;
    RecordsAnnounced(s);
    if s.phase.Looping? {
      LoopGuard(s, c);
    }
  }

  lemma {:induction false} NextKeeps(s: State, t: State, e: Step, c: Client)
    requires Inv(s, c) && Next(s, t, e)
    ensures Inv(t, c)
  {
    match e
    case Write(_) => WriteKeeps(s, t, e, c);
    case PublishRecord(_) => PublishRecordKeeps(s, t, e, c);
    case CopyByte => CopyByteKeeps(s, t, e, c);
    case Deliver => DeliverKeeps(s, t, e, c);
    case SkipRecord => SkipKeeps(s, t, e, c);
    case StoreTail => StoreKeeps(s, t, e, c);
    case _ => LocalKeeps(s, t, e, c);
  }

  /** What `PerfAuxBuffer` copies out for an announced record: its two copies always suffice, and they
      yield the stream's bytes at that record's offset. */
  lemma {:induction false} WindowIsStream(s: State, c: Client, buf: seq<Byte>)
    requires Inv(s, c) && s.phase.Copying?
    requires |buf| == AuxSize(s.records[|s.fates|]) && IsWindow(buf, s.ring, s.records[|s.fates|].offset)
    ensures var r := s.records[|s.fates|];
            && r.Aux? && r.offset % |s.ring| + r.size <= 2 * |s.ring|
            && r.offset + r.size <= |s.stream| && buf == s.stream[r.offset..r.offset + r.size]
  {
    hide FeedBuffers, BytesOf, Windows, Pos, AuxEnd;
    RecordsAnnounced(s);
    var r := s.records[|s.fates|];
    assert s.auxTail <= r.offset;
    forall k | 0 <= k < |buf|
      ensures buf[k] == s.stream[r.offset..r.offset + r.size][k]
    {
      assert s.ring[(r.offset + k) % |s.ring|] == s.stream[r.offset + k];
    }
  }

  // ---- whole runs ----

  ghost predicate IsRun(ss: seq<State>, es: seq<Step>, c: Client) {
    && |ss| == |es| + 1
    && Init(ss[0], c)
    && forall i :: 0 <= i < |es| ==> Next(ss[i], ss[i + 1], es[i])
  }

  lemma {:induction false} RunInv(ss: seq<State>, es: seq<Step>, c: Client, i: nat)
    requires IsRun(ss, es, c) && i < |ss|
    ensures Inv(ss[i], c)
  {
    if i > 0 {
      RunInv(ss, es, c, i - 1);
      NextKeeps(ss[i - 1], ss[i], es[i - 1], c);
    }
  }

  /**
    * In every state of every interleaving: the assertion on `aux_tail` has not fired, `aux_tail` is the
    * number of bytes of the processed AUX records, every decoded buffer is the announced window of the
    * unbounded stream, and the coverage map is what decoding those windows in order gives.
    */
  lemma {:induction false} PipelineSafety(ss: seq<State>, es: seq<Step>, c: Client, i: nat)
    requires IsRun(ss, es, c) && i < |ss|
    ensures var s := ss[i];
            && s.phase != AssertFailed
            && |s.fates| <= |s.records| && c.Valid()
            && s.auxTail == BytesOf(s.records, s.fates, true)
            && s.delivered == Windows(s.records, s.fates, s.stream)
            && s.cov == FeedBuffers(c, Windows(s.records, s.fates, s.stream))
  {
    hide BytesOf, Windows, FeedBuffers, IsRun;
    RunInv(ss, es, c, i);
  }

  function Flatten(bufs: seq<seq<Byte>>): seq<Byte> {
    if bufs == [] then [] else Flatten(bufs[..|bufs| - 1]) + bufs[|bufs| - 1]
  }

  lemma {:induction false} FlattenSnoc(bufs: seq<seq<Byte>>, w: seq<Byte>)
    ensures Flatten(bufs + [w]) == Flatten(bufs) + w
  {
    assert (bufs + [w])[..|bufs|] == bufs;
  }

  lemma {:induction false} FlattenNil()
    ensures Flatten([]) == []
  {
  }

  lemma {:induction false} FlattenWindows(rs: seq<Record>, fates: seq<bool>, stream: seq<Byte>)
    requires |fates| <= |rs| && false !in fates && Announced(rs, |stream|)
    requires forall i :: 0 <= i < |rs| && rs[i].Aux? ==> rs[i].offset == AuxEnd(rs, i)
    requires AuxEnd(rs, |fates|) <= |stream|
    ensures Flatten(Windows(rs, fates, stream)) == stream[..AuxEnd(rs, |fates|)]
    decreases |fates|
  {
    hide Flatten;
    if fates == [] {
      FlattenNil();
    } else {
      var n := |fates| - 1;
      assert fates[n] in fates;
      FlattenWindows(rs, fates[..n], stream);
      var r := rs[n];
      if AuxSize(r) > 0 {
        var w := stream[r.offset..r.offset + r.size];
        FlattenSnoc(Windows(rs, fates[..n], stream), w);
        assert stream[..r.offset] + w == stream[..r.offset + r.size];
      }
    }
  }

  lemma {:induction false} AllBytesTrue(rs: seq<Record>, fates: seq<bool>)
    requires |fates| <= |rs| && false !in fates
    ensures BytesOf(rs, fates, true) == AuxEnd(rs, |fates|)
    decreases |fates|
  {
    if fates != [] {
      assert fates[|fates| - 1] in fates;
      AllBytesTrue(rs, fates[..|fates| - 1]);
    }
  }

  /** The ring refines a FIFO: while no record has been passed over, the decoder has been given exactly
      the first `aux_tail` bytes of the stream, cut at record boundaries. */
  lemma {:induction false} RefinesFifo(ss: seq<State>, es: seq<Step>, c: Client, i: nat)
    requires IsRun(ss, es, c) && i < |ss| && false !in ss[i].fates
    ensures var s := ss[i];
            s.auxTail <= |s.stream| && Flatten(s.delivered) == s.stream[..s.auxTail]
  {
    hide FeedBuffers, BytesOf, Pos, IsRun, Windows, AuxEnd, Flatten;
    RunInv(ss, es, c, i);
    var s := ss[i];
    RecordsAnnounced(s);
    AllBytesTrue(s.records, s.fates);
    FlattenWindows(s.records, s.fates, s.stream);
  }

  /** `s` is inside the round of `check_buffer` that started from `s0`, and has passed nothing over. */
  ghost predicate InRound(s0: State, s: State) {
    && (s.phase.Looping? || s.phase.Copying? || s.phase.Aborted?)
    && (!s.phase.Aborted? ==> s.phase.known == |s0.records|)
    && |s0.fates| <= |s.fates|
    && s.fates[..|s0.fates|] == s0.fates
    && forall i :: |s0.fates| <= i < |s.fates| ==> s.fates[i]
  }

  lemma {:induction false} StaysInRound(s0: State, s: State, t: State, e: Step)
    requires InRound(s0, s) && Next(s, t, e) && !e.ReadHead? && t.phase != AssertFailed
    ensures InRound(s0, t)
  {
    hide Feed, Decode, Pos, AuxEnd;
    if t.fates != s.fates {
      assert t.fates == s.fates + [true];
    }
  }

  lemma {:induction false} RoundInv(ss: seq<State>, es: seq<Step>, c: Client, a: nat, k: nat)
    requires IsRun(ss, es, c) && a < k < |ss|
    requires es[a].Snapshot? && ss[a + 1].phase.Looping?
    requires forall j :: a < j < k ==> !es[j].ReadHead?
    ensures InRound(ss[a], ss[k])
    decreases k
  {
    if k == a + 1 {
    } else {
      RoundInv(ss, es, c, a, k - 1);
      RunInv(ss, es, c, k);
      StaysInRound(ss[a], ss[k - 1], ss[k], es[k - 1]);
    }
  }

  lemma {:induction false} StoringKept(ss: seq<State>, es: seq<Step>, c: Client, b: nat, k: nat)
    requires IsRun(ss, es, c) && b < k < |ss| && es[b].ReadHead?
    requires forall j :: b < j < k ==> !es[j].StoreTail?
    ensures ss[k].phase == ss[b + 1].phase && ss[k].fates == ss[b].fates
    decreases k
  {
    hide Pos, Feed, Decode;
    if k > b + 1 {
      StoringKept(ss, es, c, b, k - 1);
      assert Next(ss[k - 1], ss[k], es[k - 1]);
    }
  }

  /**
    * Consumer accounting for one round, in every interleaving with the producer.  Every record that
    * existed at the snapshot of `data_head` is processed exactly once, in order; the records passed over
    * when `data_tail` is stored are exactly those published between the snapshot and the second read of
    * `data_head` -- none if nothing was published in that gap.
    */
  lemma {:induction false} RoundAccounting(ss: seq<State>, es: seq<Step>, c: Client, a: nat, b: nat, d: nat)
    requires IsRun(ss, es, c) && a < b < d < |es|
    requires es[a].Snapshot? && ss[a + 1].phase.Looping?
    requires es[b].ReadHead? && forall j :: a < j < b ==> !es[j].ReadHead?
    requires es[d].StoreTail? && forall j :: b < j < d ==> !es[j].StoreTail?
    ensures |ss[a].fates| <= |ss[a].records| <= |ss[b].records|
    ensures ss[d + 1].fates == ss[a].fates
                               + seq(|ss[a].records| - |ss[a].fates|, _ => true)
                               + seq(|ss[b].records| - |ss[a].records|, _ => false)
    ensures |ss[b].records| <= |ss[d + 1].records| && ss[d + 1].dataTail == Pos(ss[d + 1].records, |ss[b].records|)
  {
    hide Pos, RingInv, RecordsInv, AccountInv, FeedBuffers;
    RoundInv(ss, es, c, a, b);
    RunInv(ss, es, c, a);
    RunInv(ss, es, c, b);
    assert Next(ss[b], ss[b + 1], es[b]);
    LoopGuard(ss[b], c);
    StoringKept(ss, es, c, b, d);
    assert Next(ss[d], ss[d + 1], es[d]);
    RunInv(ss, es, c, d + 1);
    assert ss[b].fates == ss[a].fates + seq(|ss[a].records| - |ss[a].fates|, _ => true);
  }

  // ---- a fate is final ----

  lemma {:induction false} StepGrows(s: State, t: State, e: Step)
    requires Next(s, t, e)
    ensures s.records <= t.records && s.fates <= t.fates && |s.ring| == |t.ring|
  {
    hide Pos, AuxEnd, Feed, Decode;
  }

  lemma {:induction false} RunGrows(ss: seq<State>, es: seq<Step>, c: Client, i: nat, j: nat)
    requires IsRun(ss, es, c) && i <= j < |ss|
    ensures ss[i].records <= ss[j].records && ss[i].fates <= ss[j].fates && |ss[i].ring| == |ss[j].ring|
    decreases j
  {
    hide Next;
    if i < j {
      RunGrows(ss, es, c, i, j - 1);
      StepGrows(ss[j - 1], ss[j], es[j - 1]);
    }
  }

  /** A record that has been passed over is never decoded: in every later state its fate is the same. */
  lemma {:induction false} FatesAreFinal(ss: seq<State>, es: seq<Step>, c: Client, i: nat, j: nat, r: nat)
    requires IsRun(ss, es, c) && i <= j < |ss| && r < |ss[i].fates|
    ensures ss[i].fates <= ss[j].fates && ss[j].fates[r] == ss[i].fates[r]
  {
    hide IsRun;
    RunGrows(ss, es, c, i, j);
  }

  /** Trace bytes of the records passed over so far. */
  function Lost(s: State): nat
    requires |s.fates| <= |s.records|
  {
    BytesOf(s.records, s.fates, false)
  }

  /** `aux_tail` never catches up with bytes passed over: in every state of every run, the producer's room
      ahead of the consumer is smaller than the ring by all bytes lost so far. */
  lemma {:induction false} RingSpaceIsLost(ss: seq<State>, es: seq<Step>, c: Client, i: nat)
    requires IsRun(ss, es, c) && i < |ss|
    ensures var s := ss[i];
            && |s.fates| <= |s.records|
            && |s.stream| - AuxEnd(s.records, |s.fates|) <= |s.ring| - Lost(s)
  {
    hide IsRun, BytesOf, Windows, FeedBuffers, Pos, AuxEnd;
    RunInv(ss, es, c, i);
  }

  lemma {:induction false} BytesOfGrows(rs: seq<Record>, rs': seq<Record>, fates: seq<bool>, fates': seq<bool>, f: bool)
    requires |fates| <= |rs| && |fates'| <= |rs'| && rs <= rs' && fates <= fates'
    ensures BytesOf(rs, fates, f) <= BytesOf(rs', fates', f)
    decreases |fates'|
  {
    var n := |fates'| - 1;
    if |fates| < |fates'| {
      BytesOfGrows(rs, rs', fates, fates'[..n], f);
    } else if fates != [] {
      assert fates == fates';
      BytesOfGrows(rs, rs', fates[..n], fates'[..n], f);
    }
  }

  /** Once a ring's worth of bytes has been lost the trace is dead: the producer never writes again. */
  lemma {:induction false} StarvedForever(ss: seq<State>, es: seq<Step>, c: Client, i: nat, j: nat)
    requires IsRun(ss, es, c) && i <= j < |es|
    requires |ss[i].fates| <= |ss[i].records| && Lost(ss[i]) >= |ss[i].ring|
    ensures !es[j].Write? && ss[j + 1].stream == ss[i].stream
    decreases j
  {
    hide BytesOf, Windows, FeedBuffers, Pos, AuxEnd, Feed, Decode;
    RunInv(ss, es, c, j);
    RunGrows(ss, es, c, i, j);
    BytesOfGrows(ss[i].records, ss[j].records, ss[i].fates, ss[j].fates, false);
    AuxEndMono(ss[j].records, |ss[j].fates|, |ss[j].records|);
    assert Next(ss[j], ss[j + 1], es[j]);
    if i < j {
      StarvedForever(ss, es, c, i, j - 1);
    }
  }

  // ---- a run that loses a record ----

  lemma {:induction false} Extend(ss: seq<State>, es: seq<Step>, c: Client, t: State, e: Step)
    returns (ss': seq<State>, es': seq<Step>)
    requires IsRun(ss, es, c) && Next(ss[|ss| - 1], t, e)
    ensures |ss'| > 0 && IsRun(ss', es', c) && ss'[|ss'| - 1] == t
  {
    hide Next, Init;
    ss', es' := ss + [t], es + [e];
  }

  lemma {:induction false} TwoRecordSums(r1: Record, r2: Record)
    ensures Pos([r1], 0) == Pos([r1, r2], 0) == AuxEnd([], 0) == 0
    ensures Pos([r1], 1) == Pos([r1, r2], 1) == r1.len && AuxEnd([r1], 1) == AuxSize(r1)
    ensures Pos([r1, r2], 2) == r1.len + r2.len
  {
    assert Pos([r1], 1) == Pos([r1], 0) + r1.len && AuxEnd([r1], 1) == AuxEnd([r1], 0) + AuxSize(r1);
    assert Pos([r1, r2], 1) == Pos([r1, r2], 0) + r1.len;
  }

  /** A one-byte record is written, announced and seen by the consumer. */
  lemma {:induction false} FirstRecord(c: Client, a: Byte) returns (ss: seq<State>, es: seq<Step>)
    requires c.Valid()
    ensures |ss| > 0 && IsRun(ss, es, c)
    ensures ss[|ss| - 1] == State.State([a, 0], 1, 0, 0, [Aux(8, 0, 1)], Looping(1, 8, 0), c, [a], [], [])
  {
    hide Feed, Decode, Pos, AuxEnd;
    TwoRecordSums(Aux(8, 0, 1), Aux(8, 1, 1));
    var s := State.State([0, 0], 0, 0, 0, [], Idle, c, [], [], []);
    ss, es := [s], [];
    var t := s.(ring := [a, 0], stream := [a]);
    assert s.ring[0 := a] == t.ring && s.stream + [a] == t.stream;
    ss, es := Extend(ss, es, c, t, Write(a));
    ss, es := Extend(ss, es, c, t.(auxHead := 1), PublishHead(1));
    var u := t.(auxHead := 1, records := [Aux(8, 0, 1)]);
    assert t.records + [Aux(8, 0, 1)] == u.records;
    ss, es := Extend(ss, es, c, u, PublishRecord(Aux(8, 0, 1)));
    ss, es := Extend(ss, es, c, u.(phase := Looping(1, 8, 0)), Snapshot);
  }

  lemma {:induction false} CopiesFirst(s: State, a: Byte)
    requires s.phase == Copying(1, 8, 0, []) && s.records == [Aux(8, 0, 1)] && s.fates == [] && s.ring == [a, 0]
    ensures Next(s, s.(phase := Copying(1, 8, 0, [a])), CopyByte)
  {
    assert [] + [s.ring[0]] == [a];
  }

  /** Its byte is copied out of the ring. */
  lemma {:induction false} FirstCopied(c: Client, a: Byte) returns (ss: seq<State>, es: seq<Step>)
    requires c.Valid()
    ensures |ss| > 0 && IsRun(ss, es, c)
    ensures ss[|ss| - 1] == State.State([a, 0], 1, 0, 0, [Aux(8, 0, 1)], Copying(1, 8, 0, [a]), c, [a], [], [])
  {
    hide Feed, Decode, Pos, AuxEnd, IsRun;
    TwoRecordSums(Aux(8, 0, 1), Aux(8, 1, 1));
    ss, es := FirstRecord(c, a);
    var s := ss[|ss| - 1];
    ss, es := Extend(ss, es, c, s.(phase := Copying(1, 8, 0, [])), BeginCopy);
    hide Next;
    CopiesFirst(ss[|ss| - 1], a);
    ss, es := Extend(ss, es, c, s.(phase := Copying(1, 8, 0, [a])), CopyByte);
  }

  /** Before it is decoded, a second one is written and announced. */
  lemma {:induction false} SecondRecord(c: Client, a: Byte, b: Byte) returns (ss: seq<State>, es: seq<Step>)
    requires c.Valid()
    ensures |ss| > 0 && IsRun(ss, es, c)
    ensures ss[|ss| - 1] ==
            State.State([a, b], 2, 0, 0, [Aux(8, 0, 1), Aux(8, 1, 1)], Copying(1, 8, 0, [a]), c, [a, b], [], [])
  {
    hide Feed, Decode, Pos, AuxEnd, IsRun;
    TwoRecordSums(Aux(8, 0, 1), Aux(8, 1, 1));
    ss, es := FirstCopied(c, a);
    var t := ss[|ss| - 1];
    var u := t.(ring := [a, b], stream := [a, b]);
    assert t.ring[1 := b] == u.ring && t.stream + [b] == u.stream;
    ss, es := Extend(ss, es, c, u, Write(b));
    ss, es := Extend(ss, es, c, u.(auxHead := 2), PublishHead(2));
    var v := u.(auxHead := 2, records := [Aux(8, 0, 1), Aux(8, 1, 1)]);
    assert u.records + [Aux(8, 1, 1)] == v.records;
    ss, es := Extend(ss, es, c, v, PublishRecord(Aux(8, 1, 1)));
  }

  /** The gap does occur: for any client and any two bytes there is a run in which the second record is
      passed over and its byte, although written, announced and still in the ring, is not decoded. */
  lemma {:induction false} LosingRun(c: Client, a: Byte, b: Byte) returns (ss: seq<State>, es: seq<Step>)
    requires c.Valid()
    ensures |ss| > 0 && IsRun(ss, es, c)
    ensures var s := ss[|ss| - 1];
            && s.fates == [true, false] && s.stream == s.ring == [a, b] && s.delivered == [[a]]
            && s.phase.Idle? && s.auxHead == 2 && s.auxTail == 1
  {
    hide Feed, Decode, Pos, AuxEnd, IsRun;
    TwoRecordSums(Aux(8, 0, 1), Aux(8, 1, 1));
    ss, es := SecondRecord(c, a, b);
    var s := ss[|ss| - 1];
    var t := s.(auxTail := 1, fates := [true], phase := Looping(1, 8, 8), delivered := [[a]],
                cov := Feed(c, Decode([a], 0).ips));
    assert s.fates + [true] == t.fates && s.delivered + [[a]] == t.delivered;
    ss, es := Extend(ss, es, c, t, Deliver);
    var u := t.(phase := Storing(1, 2, 16));
    ss, es := Extend(ss, es, c, u, ReadHead);
    var v := u.(phase := Idle, dataTail := 16, fates := [true, false]);
    assert u.fates + seq(1, _ => false) == v.fates;
    ss, es := Extend(ss, es, c, v, StoreTail);
  }
}
