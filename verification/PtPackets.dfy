/** Packets, their encoding, and what the decoder makes of them. */
module PtPackets {
  import opened Words
  import opened IpCompression
  import opened PtDecoder
  import opened PtTheorems

  datatype IpKind = Tip | TipPge | TipPgd | Fup

  datatype Packet =
    | Pad
    | Tnt8(b: Byte)
    | Tnt64(payload: seq<Byte>)
    | Pip(payload: seq<Byte>)
    | Cbr(ratio: Byte, reserved: Byte)
    | TraceStop
    | Psb
    | PsbEnd
    | Tma(payload: seq<Byte>)
    | Vmcs(payload: seq<Byte>)
    | Mode(b: Byte)
    | Tsc(payload: seq<Byte>)
    | Mtc(b: Byte)
    | Cyc(head: Byte, more: seq<Byte>)
    | Ip(kind: IpKind, ipl: Byte, ip: Word)

  function IpCode(kind: IpKind): Byte {
    match kind
    case Tip => 0x0d
    case TipPge => 0x11
    case TipPgd => 0x01
    case Fup => 0x1d
  }

  /** Section 33.4.2 of the Intel SDM, volume 3C, one line per packet kind. */
  function Encode(k: Packet): (s: seq<Byte>)
    ensures |s| > 0
  {
    match k
    case Pad => [0]
    case Tnt8(b) => [b]
    case Tnt64(payload) => [0x02, 0xa3] + payload
    case Pip(payload) => [0x02, 0x43] + payload
    case Cbr(ratio, reserved) => [0x02, 0x03, ratio, reserved]
    case TraceStop => [0x02, 0x83]
    case Psb => PSB
    case PsbEnd => [0x02, 0x23]
    case Tma(payload) => [0x02, 0x73] + payload
    case Vmcs(payload) => [0x02, 0xc8] + payload
    case Mode(b) => [0x99, b]
    case Tsc(payload) => [0x19] + payload
    case Mtc(b) => [0x59, b]
    case Cyc(head, more) => [head] + more
    case Ip(kind, ipl, ip) => [(ipl << 5) | IpCode(kind)] + Payload(ip, ipl)
  }

  /** The last byte of a CYC continuation has bit 0 clear, all others have it set. */
  predicate CycChain(more: seq<Byte>) {
    && more != []
    && more[|more| - 1] & 1 == 0
    && forall i :: 0 <= i < |more| - 1 ==> more[i] & 1 == 1
  }

  /** Well-formedness of a packet, the choice of its IP length apart. */
  predicate Formed(k: Packet) {
    match k
    case Tnt8(b) => b & 1 == 0 && b != 0 && b != 2
    case Tnt64(payload) => |payload| == 6
    case Pip(payload) => |payload| == 6
    case Cbr(_, reserved) => reserved == 0
    case Tma(payload) => |payload| == 5
    case Vmcs(payload) => |payload| == 5
    case Mode(b) => b >> 5 == 0 || b >> 5 == 1
    case Tsc(payload) => |payload| == 7
    case Cyc(head, more) => head & 3 == 3 && if head & 4 == 0 then more == [] else CycChain(more)
    case Ip(_, ipl, _) => ipl < 8
    case _ => true
  }

  /** The packet is well-formed and its IP length suits a receiver whose last IP is `last`. */
  predicate Legal(k: Packet, last: Word) {
    Formed(k) && (k.Ip? ==> Compressible(last, k.ip, k.ipl))
  }

  /** The IP a packet reports: every IP packet reports one, the packet without payload reports 0. */
  function Reports(k: Packet): seq<Word> {
    if k.Ip? then [k.ip] else []
  }

  function LastAfter(k: Packet, last: Word): Word {
    if k.Ip? then k.ip else last
  }

  /** The IP that a receiver with last IP `last` takes an IP packet to report. */
  function Read(k: Packet, last: Word): Word
    requires k.Ip?
  {
    ReadIp(Payload(k.ip, k.ipl), k.ipl, last).ip
  }

  /** What the receiver logs for a packet, and its last IP afterwards. */
  function Got(k: Packet, last: Word): seq<Word> {
    if k.Ip? then [Read(k, last)] else []
  }

  function LastGot(k: Packet, last: Word): Word {
    if k.Ip? then Read(k, last) else last
  }

  /** A receiver gets what was sent if and only if the IP length suited its last IP. */
  lemma {:induction false} GotExactly(k: Packet, last: Word)
    requires Formed(k)
    ensures |Got(k, last)| == |Reports(k)|
    ensures Got(k, last) == Reports(k) <==> Legal(k, last)
    ensures Legal(k, last) ==> LastGot(k, last) == LastAfter(k, last)
  {
    hide ReadIp, Payload, Compressible;
    if k.Ip? {
      ReadPayload(Payload(k.ip, k.ipl), [], k.ipl, last);
      IpRoundTrip(last, k.ip, k.ipl, []);
    }
  }

  lemma {:induction false} CycChainTail(more: seq<Byte>, rest: seq<Byte>, past: Byte)
    requires CycChain(more)
    ensures CycTail(more + rest, past) == |more|
  {
    if |more| > 1 {
      assert more[0] & 1 == 1;
      assert (more + rest)[1..] == more[1..] + rest;
      assert CycChain(more[1..]);
      CycChainTail(more[1..], rest, past);
    }
  }

  lemma {:induction false} CycNext(k: Packet, rest: seq<Byte>, past: Byte, last: Word)
    requires k.Cyc? && Formed(k)
    ensures Next(Encode(k) + rest, past, last) == Advance(|Encode(k)|, [], last)
  {
    hide CycTail, Extended, ReadIp, IsIpHeader;
    var s := Encode(k) + rest;
    assert s[0] == k.head;
    assert s[1..] == k.more + rest;
    CycBits(k.head);
    if k.head & 4 != 0 {
      CycChainTail(k.more, rest, past);
    }
  }

  lemma {:induction false} IpHeaderBits(kind: IpKind, ipl: Byte)
    requires ipl < 8
    ensures var b := (ipl << 5) | IpCode(kind);
            && b >> 5 == ipl && b & 0x1f == IpCode(kind) && IsIpHeader(b) && b & 3 == 1 && b & 1 == 1
            && b != 0 && b != 2 && b != 0x99 && b != 0x19 && b != 0x59
  {
  }

  lemma {:induction false} IpNext(k: Packet, rest: seq<Byte>, past: Byte, last: Word)
    requires k.Ip? && Formed(k)
    ensures Next(Encode(k) + rest, past, last) == Advance(|Encode(k)|, [Read(k, last)], Read(k, last))
  {
    hide CycTail, Extended, ReadIp, Payload, IsIpHeader;
    var s := Encode(k) + rest;
    assert s[1..] == Payload(k.ip, k.ipl) + rest;
    ReadPayload(Payload(k.ip, k.ipl), rest, k.ipl, last);
    IpHeaderBits(k.kind, k.ipl);
  }

  lemma {:induction false} PsbNext(rest: seq<Byte>, past: Byte, last: Word)
    ensures Next(PSB + rest, past, last) == Advance(16, [], last)
  {
    assert (PSB + rest)[0..16] == PSB;
    WalkPassesPsb(PSB + rest, past, 0, last);
    assert (PSB + rest)[0..] == PSB + rest;
  }

  /** Packets that start with the byte 2, the PSB apart. */
  lemma {:induction false} ExtendedNext(k: Packet, rest: seq<Byte>, past: Byte, last: Word)
    requires (k.Tnt64? || k.Pip? || k.Cbr? || k.TraceStop? || k.PsbEnd? || k.Tma? || k.Vmcs?) && Formed(k)
    ensures Next(Encode(k) + rest, past, last) == Advance(|Encode(k)|, [], last)
  {
    hide CycTail, ReadIp;
    var s := Encode(k) + rest;
    assert s[0] == 2 && s[1] == Encode(k)[1];
    assert k.Cbr? ==> s[3] == 0;
  }

  lemma {:induction false} ShortNext(k: Packet, rest: seq<Byte>, past: Byte, last: Word)
    requires (k.Pad? || k.Tnt8? || k.Mode? || k.Tsc? || k.Mtc?) && Formed(k)
    ensures Next(Encode(k) + rest, past, last) == Advance(|Encode(k)|, [], last)
  {
    hide CycTail, ReadIp, Extended;
    var s := Encode(k) + rest;
    assert s[0] == Encode(k)[0];
    assert k.Mode? || k.Mtc? ==> s[1] == Encode(k)[1];
  }

  /** Whatever follows a well-formed packet, and whatever the decoder's last IP is, one turn consumes
      exactly the packet and logs its IP as that last IP completes it. */
  lemma {:induction false} FormedNext(k: Packet, rest: seq<Byte>, past: Byte, last: Word)
    requires Formed(k)
    ensures Next(Encode(k) + rest, past, last) == Advance(|Encode(k)|, Got(k, last), LastGot(k, last))
  {
    match k
    case Cyc(_, _) => CycNext(k, rest, past, last);
    case Ip(_, _, _) => IpNext(k, rest, past, last);
    case Psb => PsbNext(rest, past, last);
    case Pad => ShortNext(k, rest, past, last);
    case Tnt8(_) => ShortNext(k, rest, past, last);
    case Mode(_) => ShortNext(k, rest, past, last);
    case Tsc(_) => ShortNext(k, rest, past, last);
    case Mtc(_) => ShortNext(k, rest, past, last);
    case _ => ExtendedNext(k, rest, past, last);
  }

  /** Whatever follows a legal packet, one turn of the decoder consumes exactly it and logs its IP. */
  lemma {:induction false} PacketNext(k: Packet, rest: seq<Byte>, past: Byte, last: Word)
    requires Legal(k, last)
    ensures Next(Encode(k) + rest, past, last) == Advance(|Encode(k)|, Reports(k), LastAfter(k, last))
  {
    hide Next, Encode, Got, LastGot, Reports, LastAfter;
    FormedNext(k, rest, past, last);
    GotExactly(k, last);
  }

  function EncodeAll(ks: seq<Packet>): seq<Byte> {
    if ks == [] then [] else Encode(ks[0]) + EncodeAll(ks[1..])
  }

  predicate LegalAll(ks: seq<Packet>, last: Word) {
    ks == [] || (Legal(ks[0], last) && LegalAll(ks[1..], LastAfter(ks[0], last)))
  }

  function ReportsAll(ks: seq<Packet>): seq<Word> {
    if ks == [] then [] else Reports(ks[0]) + ReportsAll(ks[1..])
  }

  function LastAfterAll(ks: seq<Packet>, last: Word): Word {
    if ks == [] then last else LastAfterAll(ks[1..], LastAfter(ks[0], last))
  }

  predicate FormedAll(ks: seq<Packet>) {
    forall i :: 0 <= i < |ks| ==> Formed(ks[i])
  }

  function GotAll(ks: seq<Packet>, last: Word): seq<Word> {
    if ks == [] then [] else Got(ks[0], last) + GotAll(ks[1..], LastGot(ks[0], last))
  }

  function LastGotAll(ks: seq<Packet>, last: Word): Word {
    if ks == [] then last else LastGotAll(ks[1..], LastGot(ks[0], last))
  }

  lemma {:induction false} LegalIsFormed(ks: seq<Packet>, last: Word)
    requires LegalAll(ks, last)
    ensures FormedAll(ks)
    decreases |ks|
  {
    hide Formed, LastAfter, Compressible;
    if ks != [] {
      LegalIsFormed(ks[1..], LastAfter(ks[0], last));
      assert forall i :: 0 < i < |ks| ==> ks[i] == ks[1..][i - 1];
    }
  }

  /** From any sender's packets a receiver gets one IP per IP packet; it gets the IPs that were sent if and
      only if every IP length suited the last IP that the receiver had. */
  lemma {:induction false} GotAllExactly(ks: seq<Packet>, last: Word)
    requires FormedAll(ks)
    ensures |GotAll(ks, last)| == |ReportsAll(ks)|
    ensures GotAll(ks, last) == ReportsAll(ks) <==> LegalAll(ks, last)
    ensures LegalAll(ks, last) ==> LastGotAll(ks, last) == LastAfterAll(ks, last)
    decreases |ks|
  {
    hide Formed, Legal, Got, LastGot, Reports, LastAfter;
    if ks != [] {
      var g, r := Got(ks[0], last), Reports(ks[0]);
      GotExactly(ks[0], last);
      GotAllExactly(ks[1..], LastGot(ks[0], last));
      if GotAll(ks, last) == ReportsAll(ks) {
        assert g == GotAll(ks, last)[..|g|] == r;
        assert GotAll(ks[1..], LastGot(ks[0], last)) == GotAll(ks, last)[|g|..] == ReportsAll(ks[1..]);
      }
    }
  }

  /** Offsets of the packets when the first one starts at `p`. */
  function Offsets(ks: seq<Packet>, p: nat): seq<nat> {
    if ks == [] then [] else [p] + Offsets(ks[1..], p + |Encode(ks[0])|)
  }

  /** The run that a list of packets starting at `p` should produce. */
  function Expected(ks: seq<Packet>, p: nat, last: Word): Run {
    Run(Offsets(ks, p), ReportsAll(ks), 0, p + |EncodeAll(ks)|, LastAfterAll(ks, last))
  }

  /** The run that a list of packets starting at `p` produces in a receiver with last IP `last`. */
  function Arrival(ks: seq<Packet>, p: nat, last: Word): Run {
    Run(Offsets(ks, p), GotAll(ks, last), 0, p + |EncodeAll(ks)|, LastGotAll(ks, last))
  }

  /** Packets arrive as they should if and only if they are legal for the receiver. */
  lemma {:induction false} ArrivalExactly(ks: seq<Packet>, p: nat, last: Word)
    requires FormedAll(ks)
    ensures Arrival(ks, p, last) == Expected(ks, p, last) <==> LegalAll(ks, last)
  {
    hide FormedAll, GotAll, LastGotAll, ReportsAll, LastAfterAll, LegalAll, Offsets;
    GotAllExactly(ks, last);
  }

  lemma {:induction false} ThenAssoc(a: Run, b: Run, c: Run)
    ensures a.Then(b).Then(c) == a.Then(b.Then(c))
  {
  }

  lemma {:induction false} ArrivalCons(ks: seq<Packet>, p: nat, last: Word)
    requires ks != []
    ensures var e, l := |Encode(ks[0])|, LastGot(ks[0], last);
            Arrival(ks, p, last) == Run([p], Got(ks[0], last), 0, p + e, l).Then(Arrival(ks[1..], p + e, l))
  {
    hide Encode, Got, LastGot;
  }

  lemma {:induction false} WalkOnePacket(m: seq<Byte>, past: Byte, p: nat, last: Word, k: Packet, tail: seq<Byte>)
    requires p <= |m| && m[p..] == Encode(k) + tail && Formed(k)
    ensures p + |Encode(k)| <= |m| && m[p + |Encode(k)|..] == tail
    ensures Walk(m, past, p, last) ==
            Run([p], Got(k, last), 0, p + |Encode(k)|, LastGot(k, last))
            .Then(Walk(m, past, p + |Encode(k)|, LastGot(k, last)))
  {
    hide Next, Encode, Formed, Got, LastGot;
    FormedNext(k, tail, past, last);
    assert m[p + |Encode(k)|..] == m[p..][|Encode(k)|..];
  }

  /** Walking over any well-formed packets, with any last IP, visits exactly their offsets and then goes on
      behind them. */
  lemma {:induction false} WalkFormed(m: seq<Byte>, past: Byte, p: nat, last: Word, ks: seq<Packet>, rest: seq<Byte>)
    requires p <= |m| && m[p..] == EncodeAll(ks) + rest && FormedAll(ks)
    ensures p + |EncodeAll(ks)| <= |m| && m[p + |EncodeAll(ks)|..] == rest
    ensures Walk(m, past, p, last) ==
            Arrival(ks, p, last).Then(Walk(m, past, p + |EncodeAll(ks)|, LastGotAll(ks, last)))
    decreases |ks|
  {
    hide Walk, Encode, Formed, Got, LastGot;
    if ks == [] {
      assert m[p..] == rest;
    } else {
      hide Arrival;
      var e, l := Encode(ks[0]), LastGot(ks[0], last);
      assert m[p..] == e + (EncodeAll(ks[1..]) + rest);
      WalkOnePacket(m, past, p, last, ks[0], EncodeAll(ks[1..]) + rest);
      WalkFormed(m, past, p + |e|, l, ks[1..], rest);
      ArrivalCons(ks, p, last);
      ThenAssoc(Run([p], Got(ks[0], last), 0, p + |e|, l), Arrival(ks[1..], p + |e|, l),
                Walk(m, past, p + |EncodeAll(ks)|, LastGotAll(ks, last)));
    }
  }

  /** Walking over legal packets visits exactly their offsets and logs the IPs they report. */
  lemma {:induction false} WalkPackets(m: seq<Byte>, past: Byte, p: nat, last: Word, ks: seq<Packet>, rest: seq<Byte>)
    requires p <= |m| && m[p..] == EncodeAll(ks) + rest && LegalAll(ks, last)
    ensures p + |EncodeAll(ks)| <= |m| && m[p + |EncodeAll(ks)|..] == rest
    ensures Walk(m, past, p, last) ==
            Expected(ks, p, last).Then(Walk(m, past, p + |EncodeAll(ks)|, LastAfterAll(ks, last)))
  {
    hide Walk, EncodeAll, Arrival, LegalAll, FormedAll;
    LegalIsFormed(ks, last);
    WalkFormed(m, past, p, last, ks, rest);
    ArrivalExactly(ks, p, last);
    GotAllExactly(ks, last);
  }
}
