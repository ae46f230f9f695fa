/** What the decoder does with any bytes: read the packet that they start with, or else one of a few fallbacks. */
module PtParse {
  import opened Words
  import opened IpCompression
  import opened PtDecoder
  import opened PtPackets
  import opened PtStreams

  /** The bytes start with the encoding of a well-formed packet. */
  ghost predicate StartsWithPacket(s: seq<Byte>) {
    exists k :: Formed(k) && Encode(k) <= s
  }

  /**
    * What one turn does with bytes that start with no well-formed packet: an OVF or MNT, a byte 2 that starts
    * nothing else, a CYC packet or an IP packet cut off by the end, or bytes to give up on.
    */
  function Fallback(s: seq<Byte>, last: Word): Step
    requires s != []
  {
    if s[0] == 2 then
      if |s| >= 8 && s[1] == 0xf3 then Advance(8, [], last)
      else if |s| >= 11 && s[1] == 0xc3 && s[2] == 0x88 then Advance(10, [], last)
      else Advance(1, [], last)
    else if s[0] & 3 == 3 then Advance(|s| + 1, [], last)
    else if s[0] & 0x1f == 0x0d || s[0] & 0x1f == 0x11 || s[0] & 0x1f == 0x01 || s[0] & 0x1f == 0x1d
    then Advance(1, [0], 0)
    else Stuck
  }

  lemma {:induction false} PayloadOf(s: seq<Byte>, ipl: Byte) returns (ip: Word)
    requires PayloadLen(ipl) <= |s|
    ensures Payload(ip, ipl) == s[..PayloadLen(ipl)]
  {
    hide Load64, Store64;
    var n := PayloadLen(ipl);
    var t := (s[..n] + [0, 0, 0, 0, 0, 0, 0, 0])[..8];
    ip := Load64(t);
    StoreLoad64(t);
    assert t[..n] == s[..n];
  }

  lemma {:induction false} HeaderOf(b: Byte) returns (kind: IpKind, ipl: Byte)
    requires IsIpHeader(b)
    ensures ipl < 8 && b == (ipl << 5) | IpCode(kind) && b >> 5 == ipl
  {
    ipl := b >> 5;
    kind := if b & 0x1f == 0x0d then Tip else if b & 0x1f == 0x11 then TipPge
            else if b & 0x1f == 0x01 then TipPgd else Fup;
  }

  /** An IP header with all of its payload behind it. */
  lemma {:induction false} IpParses(s: seq<Byte>)
    requires s != [] && IsIpHeader(s[0]) && PayloadLen(s[0] >> 5) < |s|
    ensures StartsWithPacket(s)
  {
    hide Payload, PayloadLen, IsIpHeader;
    var kind, ipl := HeaderOf(s[0]);
    var ip := PayloadOf(s[1..], ipl);
    var k := Ip(kind, ipl, ip);
    assert Encode(k) == [s[0]] + s[1..][..PayloadLen(ipl)];
    assert Formed(k) && Encode(k) <= s;
  }

  lemma {:induction false} BitZero(b: Byte)
    ensures b & 1 == 1 || b & 1 == 0
  {
  }

  lemma {:induction false} CycEnd(t: seq<Byte>) returns (n: nat)
    requires exists k :: 0 <= k < |t| && t[k] & 1 != 1
    ensures 0 < n <= |t| && CycChain(t[..n])
  {
    if t[0] & 1 != 1 {
      n := 1;
      BitZero(t[0]);
      assert t[..1] == [t[0]];
    } else {
      assert exists k :: 0 <= k < |t[1..]| && t[1..][k] & 1 != 1 by {
        var k :| 0 <= k < |t| && t[k] & 1 != 1;
        assert t[1..][k - 1] == t[k];
      }
      var m := CycEnd(t[1..]);
      n := m + 1;
      assert t[..n] == [t[0]] + t[1..][..m];
    }
  }

  lemma {:induction false} CycPrefix(s: seq<Byte>, n: nat)
    requires n < |s| && s[0] & 3 == 3 && if s[0] & 4 == 0 then n == 0 else CycChain(s[1..][..n])
    ensures StartsWithPacket(s)
  {
    hide CycChain;
    var k := Cyc(s[0], s[1..][..n]);
    assert Encode(k) == s[..n + 1];
    assert Formed(k) && Encode(k) <= s;
  }

  /** A CYC header whose chain ends inside the buffer. */
  lemma {:induction false} CycParses(s: seq<Byte>)
    requires s != [] && s[0] & 3 == 3 && !TruncatedCyc(s)
    ensures StartsWithPacket(s)
  {
    hide CycChain;
    CycBits(s[0]);
    if s[0] & 4 == 0 {
      CycPrefix(s, 0);
    } else {
      var j :| 0 < j < |s| && s[j] & 1 != 1;
      assert s[1..][j - 1] == s[j];
      var n := CycEnd(s[1..]);
      CycPrefix(s, n);
    }
  }

  /** The packets that start with the byte 2. */
  lemma {:induction false} ExtendedParses(s: seq<Byte>)
    requires |s| >= 2 && s[0] == 2 && Extended(s) > 0 && s[1] != 0xf3 && s[1] != 0xc3
    ensures StartsWithPacket(s)
  {
    var k := if s[1] == 0xa3 then Tnt64(s[2..8])
             else if s[1] == 0x43 then Pip(s[2..8])
             else if s[1] == 0x03 then Cbr(s[2], s[3])
             else if s[1] == 0x83 then TraceStop
             else if s[1] == 0x82 then Psb
             else if s[1] == 0x23 then PsbEnd
             else if s[1] == 0x73 then Tma(s[2..7])
             else Vmcs(s[2..7]);
    assert Formed(k) && Encode(k) <= s;
  }

  lemma {:induction false} ShortParses(s: seq<Byte>)
    requires s != []
    requires || (s[0] & 1 == 0 && s[0] != 2)
             || IsMode(s)
             || (s[0] == 0x19 && |s| >= 8)
             || (s[0] == 0x59 && |s| >= 2)
    ensures StartsWithPacket(s)
  {
    var k := if s[0] == 0 then Pad else if s[0] & 1 == 0 then Tnt8(s[0])
             else if s[0] == 0x99 then Mode(s[1]) else if s[0] == 0x19 then Tsc(s[1..8]) else Mtc(s[1]);
    assert Formed(k) && Encode(k) <= s;
  }

  lemma {:induction false} HeaderIsOdd(b: Byte)
    ensures IsIpHeader(b) ==> b & 1 == 1 && b != 2 && b & 3 == 1
    ensures b == 0x99 || b == 0x19 || b == 0x59 ==> b & 1 == 1 && !IsIpHeader(b) && b & 3 != 3
  {
  }

  /** An IP header without all of its payload. */
  lemma {:induction false} IpFallsBack(s: seq<Byte>, past: Byte, last: Word)
    requires s != [] && IsIpHeader(s[0]) && PayloadLen(s[0] >> 5) >= |s|
    ensures Next(s, past, last) == Fallback(s, last) == Advance(1, [0], 0)
  {
    hide CycTail, Extended, PayloadLen;
    assert |s[1..]| < PayloadLen(s[0] >> 5);
    CycBits(s[0]);
    HeaderIsOdd(s[0]);
  }

  lemma {:induction false} CycFallsBack(s: seq<Byte>, past: Byte, last: Word)
    requires s != [] && TruncatedCyc(s)
    ensures Next(s, past, last) == Fallback(s, last)
  {
    hide ReadIp, CycTail, Extended, IsIpHeader;
    CycBits(s[0]);
    CycTailBounds(s[1..], past);
    assert forall k :: 0 < k < |s| ==> s[k] == s[1..][k - 1];
  }

  lemma {:induction false} TwoFallsBack(s: seq<Byte>, past: Byte, last: Word)
    requires s != [] && s[0] == 2 && (|s| >= 2 && Extended(s) > 0 ==> s[1] == 0xf3 || s[1] == 0xc3)
    ensures Next(s, past, last) == Fallback(s, last)
  {
    hide ReadIp, CycTail, IsIpHeader;
  }

  lemma {:induction false} StuckFallsBack(s: seq<Byte>, past: Byte, last: Word)
    requires s != [] && s[0] & 1 != 0 && !IsIpHeader(s[0]) && s[0] & 3 != 3
    requires !IsMode(s) && !(s[0] == 0x19 && |s| >= 8) && !(s[0] == 0x59 && |s| >= 2)
    ensures Next(s, past, last) == Fallback(s, last)
  {
    hide ReadIp, CycTail, Extended;
  }

  /** Bytes that start with no packet are met with the fallback. */
  lemma {:induction false} NoPacket(s: seq<Byte>, past: Byte, last: Word)
    requires s != [] && !StartsWithPacket(s)
    ensures Next(s, past, last) == Fallback(s, last)
  {
    hide StartsWithPacket, Extended, IsIpHeader, PayloadLen, TruncatedCyc, IsMode;
    var b := s[0];
    HeaderIsOdd(b);
    CycBits(b);
    if b == 2 {
      if |s| >= 2 && Extended(s) > 0 && s[1] != 0xf3 && s[1] != 0xc3 {
        ExtendedParses(s);
      }
      hide Next, Fallback;
      TwoFallsBack(s, past, last);
    } else if b & 1 == 0 || IsMode(s) || (b == 0x19 && |s| >= 8) || (b == 0x59 && |s| >= 2) {
      ShortParses(s);
    } else if IsIpHeader(b) {
      if PayloadLen(b >> 5) < |s| {
        IpParses(s);
      }
      hide Next, Fallback;
      IpFallsBack(s, past, last);
    } else if b & 3 == 3 {
      if !TruncatedCyc(s) {
        CycParses(s);
      }
      hide Next, Fallback;
      CycFallsBack(s, past, last);
    } else {
      StuckFallsBack(s, past, last);
    }
  }

  /**
    * One turn of the decoder on any bytes.  If they start with a well-formed packet the turn consumes exactly
    * it and logs what it gives; otherwise the turn is the fallback.
    */
  lemma {:induction false} EveryTurn(s: seq<Byte>, past: Byte, last: Word)
    requires s != []
    ensures forall k :: Formed(k) && Encode(k) <= s ==>
              Next(s, past, last) == Advance(|Encode(k)|, Got(k, last), LastGot(k, last))
    ensures !StartsWithPacket(s) ==> Next(s, past, last) == Fallback(s, last)
  {
    hide Next, Encode, Formed, Got, LastGot, Fallback;
    forall k | Formed(k) && Encode(k) <= s
      ensures Next(s, past, last) == Advance(|Encode(k)|, Got(k, last), LastGot(k, last))
    {
      assert s == Encode(k) + s[|Encode(k)|..];
      FormedNext(k, s[|Encode(k)|..], past, last);
    }
    if !StartsWithPacket(s) {
      NoPacket(s, past, last);
    }
  }
}
