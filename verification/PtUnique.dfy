/** The packet encoding is uniquely decodable: bytes determine the packets themselves. */
module PtUnique {
  import opened Words
  import opened IpCompression
  import opened PtDecoder
  import opened PtPackets

  /** The kind of a packet, read off its first bytes. */
  datatype Kind =
    | KPad | KTnt8 | KTnt64 | KPip | KCbr | KTraceStop | KPsb | KPsbEnd
    | KTma | KVmcs | KMode | KTsc | KMtc | KCyc | KIp

  function KindOf(k: Packet): Kind {
    match k
    case Pad => KPad
    case Tnt8(_) => KTnt8
    case Tnt64(_) => KTnt64
    case Pip(_) => KPip
    case Cbr(_, _) => KCbr
    case TraceStop => KTraceStop
    case Psb => KPsb
    case PsbEnd => KPsbEnd
    case Tma(_) => KTma
    case Vmcs(_) => KVmcs
    case Mode(_) => KMode
    case Tsc(_) => KTsc
    case Mtc(_) => KMtc
    case Cyc(_, _) => KCyc
    case Ip(_, _, _) => KIp
  }

  function KindRead(s: seq<Byte>): Kind
    requires s != []
  {
    if s[0] == 0 then KPad
    else if s[0] == 2 && |s| >= 2 then
      if s[1] == 0xa3 then KTnt64
      else if s[1] == 0x43 then KPip
      else if s[1] == 0x03 then KCbr
      else if s[1] == 0x83 then KTraceStop
      else if s[1] == 0x82 then KPsb
      else if s[1] == 0x23 then KPsbEnd
      else if s[1] == 0x73 then KTma
      else KVmcs
    else if s[0] & 1 == 0 then KTnt8
    else if s[0] == 0x99 then KMode
    else if s[0] == 0x19 then KTsc
    else if s[0] == 0x59 then KMtc
    else if s[0] & 3 == 3 then KCyc
    else KIp
  }

  lemma {:induction false} ExtendedKind(k: Packet)
    requires k.Tnt64? || k.Pip? || k.Cbr? || k.TraceStop? || k.Psb? || k.PsbEnd? || k.Tma? || k.Vmcs?
    ensures KindRead(Encode(k)) == KindOf(k)
  {
    assert Encode(k)[0] == 2;
  }

  lemma {:induction false} ShortKind(k: Packet, last: Word)
    requires (k.Pad? || k.Tnt8? || k.Mode? || k.Tsc? || k.Mtc?) && Legal(k, last)
    ensures KindRead(Encode(k)) == KindOf(k)
  {
    var b := Encode(k)[0];
    assert b == 0x99 || b == 0x19 || b == 0x59 ==> b & 1 == 1;
  }

  /** A legal packet's first bytes show its kind. */
  lemma {:induction false} KindIsRead(k: Packet, last: Word)
    requires Legal(k, last)
    ensures KindRead(Encode(k)) == KindOf(k)
  {
    hide Compressible, Payload;
    if k.Ip? {
      IpHeaderBits(k.kind, k.ipl);
    } else if k.Cyc? {
      CycBits(k.head);
    } else {
      hide KindRead, Encode;
      if k.Pad? || k.Tnt8? || k.Mode? || k.Tsc? || k.Mtc? {
        ShortKind(k, last);
      } else {
        ExtendedKind(k);
      }
    }
  }

  lemma {:induction false} SamePayload(a: seq<Byte>, p: seq<Byte>, q: seq<Byte>)
    requires a + p == a + q
    ensures p == q
  {
    assert p == (a + p)[|a|..];
    assert q == (a + q)[|a|..];
  }

  lemma {:induction false} SameIp(k: Packet, l: Packet)
    requires k.Ip? && l.Ip? && k.ipl < 8 && l.ipl < 8 && Encode(k) == Encode(l) && Reports(k) == Reports(l)
    ensures k == l
  {
    hide Payload;
    var b := Encode(k)[0];
    assert b == (k.ipl << 5) | IpCode(k.kind) && b == (l.ipl << 5) | IpCode(l.kind);
    IpHeaderBits(k.kind, k.ipl);
    IpHeaderBits(l.kind, l.ipl);
    assert Reports(k)[0] == Reports(l)[0];
  }

  lemma {:induction false} SameLong(k: Packet, l: Packet)
    requires KindOf(k) == KindOf(l) && Encode(k) == Encode(l)
    requires k.Tnt64? || k.Pip? || k.Tma? || k.Vmcs? || k.Tsc?
    ensures k == l
  {
    SamePayload(if k.Tsc? then [0x19] else Encode(k)[..2], k.payload, l.payload);
  }

  lemma {:induction false} SameCyc(k: Packet, l: Packet)
    requires k.Cyc? && l.Cyc? && Encode(k) == Encode(l)
    ensures k == l
  {
    assert Encode(k)[0] == k.head && Encode(l)[0] == l.head;
    SamePayload([k.head], k.more, l.more);
  }

  lemma {:induction false} SameShort(k: Packet, l: Packet, last: Word)
    requires KindOf(k) == KindOf(l) && Encode(k) == Encode(l) && Legal(k, last) && Legal(l, last)
    requires k.Tnt8? || k.Mode? || k.Mtc? || k.Cbr?
    ensures k == l
  {
    var i := if k.Tnt8? then 0 else if k.Cbr? then 2 else 1;
    assert Encode(k)[i] == Encode(l)[i];
  }

  /** Equal encodings mean equal packets, once the IP they report is known to be the same. */
  lemma {:induction false} EncodeInjective(k: Packet, l: Packet, last: Word)
    requires Legal(k, last) && Legal(l, last) && Encode(k) == Encode(l) && Reports(k) == Reports(l)
    ensures k == l
  {
    hide Compressible, KindRead, Encode;
    KindIsRead(k, last);
    KindIsRead(l, last);
    if k.Ip? {
      SameIp(k, l);
    } else if k.Cyc? {
      SameCyc(k, l);
    } else if k.Tnt8? || k.Mode? || k.Mtc? || k.Cbr? {
      SameShort(k, l, last);
    } else if k.Tnt64? || k.Pip? || k.Tma? || k.Vmcs? || k.Tsc? {
      SameLong(k, l);
    }
  }

  /** The first packet of equal byte strings is the same, and so is what follows it. */
  lemma {:induction false} FirstPacket(k: Packet, l: Packet, last: Word, s: seq<Byte>, t: seq<Byte>)
    requires Legal(k, last) && Legal(l, last) && Encode(k) + s == Encode(l) + t
    ensures k == l && s == t
  {
    hide Legal, Encode, Reports, Next;
    var m := Encode(k) + s;
    PacketNext(k, s, 0, last);
    PacketNext(l, t, 0, last);
    assert Encode(k) == m[..|Encode(k)|] && Encode(l) == m[..|Encode(l)|];
    EncodeInjective(k, l, last);
    SamePayload(Encode(k), s, t);
  }

  /** Unique decodability: legal packet lists with the same bytes are the same list. */
  lemma {:induction false} UniquelyDecodable(ks: seq<Packet>, ls: seq<Packet>, last: Word)
    requires LegalAll(ks, last) && LegalAll(ls, last) && EncodeAll(ks) == EncodeAll(ls)
    ensures ks == ls
    decreases |ks|
  {
    hide Legal, Encode, LastAfter;
    if ks != [] && ls != [] {
      FirstPacket(ks[0], ls[0], last, EncodeAll(ks[1..]), EncodeAll(ls[1..]));
      UniquelyDecodable(ks[1..], ls[1..], LastAfter(ks[0], last));
      assert ks == [ks[0]] + ks[1..] && ls == [ls[0]] + ls[1..];
    }
  }
}
