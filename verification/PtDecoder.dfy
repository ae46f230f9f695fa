/** The Intel PT packet decoder (`PTDecoder::decode`). */
module PtDecoder {
  import opened Prelude
  import opened Words
  import opened IpCompression
  import opened Coverage

  const PSB: seq<Byte> := [0x02, 0x82, 0x02, 0x82, 0x02, 0x82, 0x02, 0x82,
                           0x02, 0x82, 0x02, 0x82, 0x02, 0x82, 0x02, 0x82]

  /** What one turn of the inner loop does: give up, or move the cursor and perhaps log an IP. */
  datatype Step = Stuck | Advance(used: nat, ips: seq<Word>, last: Word)

  predicate PsbAt(s: seq<Byte>, k: nat) {
    k + 16 <= |s| && s[k..k + 16] == PSB
  }

  /** `memmem(s, psb)`: the first place where a PSB occurs. */
  function FindPsb(s: seq<Byte>): (r: Option<nat>)
    ensures r.Some? ==> r.value + 16 <= |s| && PsbAt(s, r.value)
    ensures forall k: nat :: k < (if r.Some? then r.value else |s|) ==> !PsbAt(s, k)
  {
    if |s| < 16 then None
    else if s[..16] == PSB then Some(0)
    else
      var r := FindPsb(s[1..]);
      assert forall k: nat :: 0 < k < |s| ==> PsbAt(s, k) == PsbAt(s[1..], k - 1);
      if r.Some? then Some(r.value + 1) else None
  }

  lemma {:induction false} PsbFits(s: seq<Byte>, k: nat)
    requires PsbAt(s, k)
    ensures k + 16 <= |s|
  {
  }

  /** Length of a packet that starts with the byte 2, or 0 if none is recognised. */
  function Extended(s: seq<Byte>): (n: nat)
    requires |s| >= 2
    ensures n <= |s|
  {
    if s[1] == 0xa3 && |s| >= 8 then 8                            // long TNT
    else if s[1] == 0x43 && |s| >= 8 then 8                       // PIP
    else if s[1] == 0x03 && |s| >= 4 && s[3] == 0 then 4          // CBR
    else if s[1] == 0x83 then 2                                   // trace stop
    else if s[1] == 0xf3 && |s| >= 8 then 8                       // OVF, taken to be 8 bytes long
    else if s[1] == 0x82 && |s| >= 16 && s[..16] == PSB then 16   // PSB
    else if s[1] == 0x23 then 2                                   // PSBEND
    else if s[1] == 0xc3 && |s| >= 11 && s[2] == 0x88 then 10     // MNT: needs 11 bytes, skips 10
    else if s[1] == 0x73 && |s| >= 7 then 7                       // TMA
    else if s[1] == 0xc8 && |s| >= 7 then 7                       // VMCS
    else 0
  }

  /** TIP, TIP.PGE, TIP.PGD and FUP headers. */
  predicate IsIpHeader(b: Byte) {
    b & 0x1f == 0x0d || b & 0x1f == 0x11 || b & 0x1f == 0x01 || b & 0x1f == 0x1d
  }

  predicate IsMode(s: seq<Byte>) {
    |s| >= 2 && s[0] == 0x99 && (s[1] >> 5 == 1 || s[1] >> 5 == 0)
  }

  /**
    * Bytes the CYC continuation loop consumes after it has stepped past a byte; `t` is what is left.
    * With nothing left the loop looks at `past`, the byte just behind the buffer.
    */
  function CycTail(t: seq<Byte>, past: Byte): nat {
    var b := if t == [] then past else t[0];
    if b & 1 != 0 && |t| >= 1 then 1 + CycTail(t[1..], past) else 1
  }

  function CycLen(s: seq<Byte>, past: Byte): nat
    requires |s| > 0
  {
    if s[0] & 4 != 0 then 1 + CycTail(s[1..], past) else 1
  }

  /** One turn of the inner loop on the bytes `s` from the cursor to the end of the buffer. */
  function Next(s: seq<Byte>, past: Byte, last: Word): Step
    requires |s| > 0
  {
    var b := s[0];
    if b == 2 && |s| >= 2 && Extended(s) > 0 then Advance(Extended(s), [], last)
    else if b & 1 == 0 then Advance(1, [], last)                  // PAD and short TNT
    else if IsIpHeader(b) then
      var r := ReadIp(s[1..], b >> 5, last);
      Advance(1 + r.used, [r.ip], r.ip)
    else if IsMode(s) then Advance(2, [], last)
    else if b == 0x19 && |s| >= 8 then Advance(8, [], last)       // TSC
    else if b == 0x59 && |s| >= 2 then Advance(2, [], last)       // MTC
    else if b & 3 == 3 then Advance(CycLen(s, past), [], last)
    else Stuck
  }

  /** A CYC packet all of whose bytes announce another one. */
  predicate TruncatedCyc(s: seq<Byte>) {
    |s| > 0 && s[0] & 7 == 7 && forall k :: 0 < k < |s| ==> s[k] & 1 == 1
  }

  lemma {:induction false} CycTailBounds(t: seq<Byte>, past: Byte)
    ensures 1 <= CycTail(t, past) <= |t| + 1
    ensures CycTail(t, past) == |t| + 1 <==> forall k :: 0 <= k < |t| ==> t[k] & 1 == 1
  {
    if t != [] {
      CycTailBounds(t[1..], past);
      assert t[0] & 1 == 0 || t[0] & 1 == 1;
      assert forall k :: 0 < k < |t| ==> t[k] == t[1..][k - 1];
    }
  }

  lemma {:induction false} ReadIpBounds(s: seq<Byte>, ipl: Byte, last: Word)
    ensures ReadIp(s, ipl, last).used <= |s|
  {
    hide SignExtend48, Merge, Load64;
  }

  /** Headers of CYC packets: bit 2 announces more bytes; no other packet has such a header. */
  lemma {:induction false} CycBits(b: Byte)
    ensures b & 7 == 7 <==> b & 3 == 3 && b & 4 != 0
    ensures b & 7 == 3 <==> b & 3 == 3 && b & 4 == 0
    ensures b & 3 == 3 ==>
              b & 1 == 1 && !IsIpHeader(b) && b != 0 && b != 2 && b != 0x99 && b != 0x19 && b != 0x59
  {
  }

  /**
    * Every turn that does not give up consumes at least one byte and never more than one byte past
    * the end of the buffer; it goes past the end exactly for a CYC packet cut off by it.
    */
  lemma {:induction false} NextBounds(s: seq<Byte>, past: Byte, last: Word)
    requires |s| > 0
    ensures var n := Next(s, past, last);
            n.Advance? ==> 1 <= n.used <= |s| + 1 && |n.ips| <= 1 && (n.used == |s| + 1 <==> TruncatedCyc(s))
  {
    hide ReadIp, Extended;
    CycTailBounds(s[1..], past);
    assert forall k :: 0 < k < |s| ==> s[k] == s[1..][k - 1];
    ReadIpBounds(s[1..], s[0] >> 5, last);
    CycBits(s[0]);
  }

  /**
    * What a stretch of decoding does: the offsets at which a packet was decoded, the IPs logged, the
    * number of PSB searches that succeeded, and the cursor and `last_ip` at the end.
    */
  datatype Run = Run(visits: seq<nat>, ips: seq<Word>, psbs: nat, pos: nat, last: Word) {
    function Then(r: Run): Run {
      Run(visits + r.visits, ips + r.ips, psbs + r.psbs, r.pos, r.last)
    }
  }

  /** The inner loop from cursor `p`: decode packets until the end or an undecodable byte. */
  function Walk(m: seq<Byte>, past: Byte, p: nat, last: Word): (r: Run)
    ensures p <= r.pos
    decreases |m| - p
  {
    if p >= |m| then Run([], [], 0, p, last)
    else
      NextBounds(m[p..], past, last);
      match Next(m[p..], past, last)
      case Stuck => Run([], [], 0, p, last)
      case Advance(n, ips, last') => Run([p], ips, 0, p + n, last').Then(Walk(m, past, p + n, last'))
  }

  /** One turn of the inner loop, then the walk from where it ends. */
  lemma {:induction false} WalkTurn(m: seq<Byte>, past: Byte, p: nat, last: Word)
    requires p < |m|
    ensures match Next(m[p..], past, last)
            case Stuck => Walk(m, past, p, last) == Run([], [], 0, p, last)
            case Advance(n, ips, last') =>
              && n > 0 && |ips| <= 1
              && Walk(m, past, p, last) == Run([p], ips, 0, p + n, last').Then(Walk(m, past, p + n, last'))
  {
    hide Next;
    NextBounds(m[p..], past, last);
  }

  lemma {:induction false} WalkOver(m: seq<Byte>, past: Byte, p: nat, last: Word)
    requires p >= |m|
    ensures Walk(m, past, p, last) == Run([], [], 0, p, last)
  {
  }

  /** A walk that starts at a PSB gets past it. */
  lemma {:induction false} WalkPassesPsb(m: seq<Byte>, past: Byte, p: nat, last: Word)
    requires PsbAt(m, p)
    ensures Next(m[p..], past, last) == Advance(16, [], last)
    ensures Walk(m, past, p, last).pos >= p + 16
  {
    assert m[p..][..16] == m[p..p + 16];
    assert m[p..][0] == PSB[0] && m[p..][1] == PSB[1];
  }

  /** The bytes that are searched for: sixteen, 0x02 and 0x82 in turn. */
  predicate Alternating(s: seq<Byte>, k: nat) {
    k + 16 <= |s| && forall i :: 0 <= i < 16 ==> s[k + i] == if i % 2 == 0 then 0x02 else 0x82
  }

  lemma {:induction false} PsbExactly(s: seq<Byte>, k: nat)
    ensures PsbAt(s, k) <==> Alternating(s, k)
  {
    if k + 16 <= |s| {
      var t := s[k..k + 16];
      assert forall i :: 0 <= i < 16 ==> t[i] == s[k + i];
      assert forall i :: 0 <= i < 16 ==> PSB[i] == if i % 2 == 0 then 0x02 else 0x82;
    }
  }

  /** The search finds the first such sixteen bytes, and the inner loop passes over them. */
  lemma {:induction false} FirstAlternating(s: seq<Byte>, k: nat, past: Byte, last: Word)
    requires Alternating(s, k) && forall j :: 0 <= j < k ==> !Alternating(s, j)
    ensures FindPsb(s) == Some(k) && Next(s[k..], past, last) == Advance(16, [], last)
  {
    hide PsbAt, FindPsb, Alternating, Next;
    forall j: nat
      ensures PsbAt(s, j) <==> Alternating(s, j)
    {
      PsbExactly(s, j);
    }
    PsbFits(s, k);
    WalkPassesPsb(s, past, k, last);
  }

  /** The outer loop from cursor `p`: find the next PSB, walk, repeat. */
  function Scan(m: seq<Byte>, past: Byte, p: nat, last: Word): (r: Run)
    decreases |m| - p
  {
    if p >= |m| then Run([], [], 0, p, last)
    else
      match FindPsb(m[p..])
      case None => Run([], [], 0, |m|, last)
      case Some(k) =>
        assert PsbAt(m, p + k) by { assert m[p..][k..k + 16] == m[p + k..p + k + 16]; }
        WalkPassesPsb(m, past, p + k, last);
        var w := Walk(m, past, p + k, last);
        w.(psbs := 1).Then(Scan(m, past, w.pos, w.last))
  }

  /** `decode` of a whole buffer. */
  function Decode(m: seq<Byte>, past: Byte): Run {
    Scan(m, past, 0, 0)
  }

  lemma {:induction false} WalkNoPsbs(m: seq<Byte>, past: Byte, p: nat, last: Word)
    ensures Walk(m, past, p, last).psbs == 0
    decreases |m| - p
  {
    hide Next;
    if p < |m| {
      NextBounds(m[p..], past, last);
      var n := Next(m[p..], past, last);
      if n.Advance? {
        WalkNoPsbs(m, past, p + n.used, n.last);
      }
    }
  }

  /** One round of the outer loop: it either ends the scan or moves the cursor by at least 16. */
  lemma {:induction false} ScanRound(m: seq<Byte>, past: Byte, p: nat, last: Word)
    requires p < |m|
    ensures match FindPsb(m[p..])
            case None => Scan(m, past, p, last) == Run([], [], 0, |m|, last)
            case Some(k) =>
              var w := Walk(m, past, p + k, last);
              && PsbAt(m, p + k) && w.pos >= p + k + 16 && w.psbs == 0
              && Scan(m, past, p, last) == w.(psbs := 1).Then(Scan(m, past, w.pos, w.last))
  {
    hide Walk, FindPsb;
    match FindPsb(m[p..])
    case None =>
    case Some(k) =>
      assert m[p..][k..k + 16] == m[p + k..p + k + 16];
      WalkPassesPsb(m, past, p + k, last);
      WalkNoPsbs(m, past, p + k, last);
  }

  lemma {:induction false} ScanEnd(m: seq<Byte>, past: Byte, p: nat, last: Word)
    requires p >= |m| || FindPsb(m[p..]).None?
    ensures Scan(m, past, p, last).ips == [] && Scan(m, past, p, last).psbs == 0
  {
  }

  class Decoder {
    var totalTips: nat
    var totalPsbs: nat

    constructor ()
      ensures totalTips == 0 && totalPsbs == 0
    {
      totalTips, totalPsbs := 0, 0;
    }

    /** One packet at cursor `p`, branch for branch. */
    method DecodeOne(m: seq<Byte>, past: Byte, p: nat, last: Word)
      returns (stuck: bool, next: nat, ips: seq<Word>, last': Word)
      requires p < |m|
      ensures p <= next
      ensures Next(m[p..], past, last) == if stuck then Stuck else Advance(next - p, ips, last')
    {
      hide ReadIp;
      stuck, next, ips, last' := false, p, [], last;
      var b, left := m[p], |m| - p;
      if b == 2 && left >= 2 {
        var n := ExtendedAt(m, p);
        if n > 0 {
          next := p + n;
          return;
        }
      }
      if b & 1 == 0 {
        next := p + 1;
        return;
      }
      if IsIpHeader(b) {
        assert m[p + 1..] == m[p..][1..];
        var v;
        next, v := GetIpVal(m, p + 1, b >> 5, last);
        ips, last' := [v], v;
        return;
      }
      if b == 0x99 && left >= 2 && (m[p + 1] >> 5 == 1 || m[p + 1] >> 5 == 0) {
        next := p + 2;
        return;
      }
      if b == 0x19 && left >= 8 {
        next := p + 8;
        return;
      }
      if b == 0x59 && left >= 2 {
        next := p + 2;
        return;
      }
      if b & 3 == 3 {
        next := SkipCyc(m, past, p);
        return;
      }
      stuck := true;
    }

    /** The tests on a packet that starts with the byte 2, in source order; 0 when none matches. */
    method ExtendedAt(m: seq<Byte>, p: nat) returns (n: nat)
      requires p + 2 <= |m|
      ensures n == Extended(m[p..])
    {
      var left, b := |m| - p, m[p + 1];
      if b == 0xa3 && left >= 8 {
        return 8;
      }
      if b == 0x43 && left >= 8 {
        return 8;
      }
      if b == 0x03 && left >= 4 && m[p + 3] == 0 {
        return 4;
      }
      if b == 0x83 {
        return 2;
      }
      if b == 0xf3 && left >= 8 {
        return 8;
      }
      assert left >= 16 ==> m[p..][..16] == m[p..p + 16];
      if b == 0x82 && left >= 16 && m[p..p + 16] == PSB {
        return 16;
      }
      if b == 0x23 {
        return 2;
      }
      if b == 0xc3 && left >= 11 && m[p + 2] == 0x88 {
        return 10;
      }
      if b == 0x73 && left >= 7 {
        return 7;
      }
      if b == 0xc8 && left >= 7 {
        return 7;
      }
      return 0;
    }

    /** The CYC branch with its do-while loop; `past` is what a read just behind the buffer gives. */
    method SkipCyc(m: seq<Byte>, past: Byte, p: nat) returns (next: nat)
      requires p < |m|
      ensures next == p + CycLen(m[p..], past)
    {
      next := p;
      if m[p] & 4 != 0 {
        next := p + 1;
        var b := if next < |m| then m[next] else past;
        ghost var tail := CycTail(m[p + 1..], past);
        assert m[p..][1..] == m[p + 1..];
        while b & 1 != 0 && next < |m|
          invariant p < next <= |m|
          invariant b == if next < |m| then m[next] else past
          invariant p + 1 + tail == next + CycTail(m[next..], past)
          decreases |m| - next
        {
          assert m[next..][1..] == m[next + 1..];
          next := next + 1;
          b := if next < |m| then m[next] else past;
        }
      }
      next := next + 1;
    }

    /** Count and log the IP of a packet, if it has one. */
    method LogIps(ips: seq<Word>, client: AflClient)
      requires client.Valid() && |ips| <= 1
      modifies this`totalTips, client`prevLoc, client.area
      ensures client.Valid() && client.area == old(client.area)
      ensures totalTips == old(totalTips) + |ips| && client.View() == Feed(old(client.View()), ips)
    {
      hide Feed;
      if ips != [] {
        totalTips := totalTips + 1;
        assert [ips[0]] == ips;
        client.MaybeLog(ips[0]);
      } else {
        FeedConcat(client.View(), [], []);
      }
    }

    /** The inner loop: walk from `p`, passing every IP to the AFL client at once. */
    method WalkBuffer(m: seq<Byte>, past: Byte, p: nat, last: Word, client: AflClient)
      returns (pos: nat, last': Word)
      requires client.Valid()
      modifies this`totalTips, client`prevLoc, client.area
      ensures client.Valid()
      ensures var r := Walk(m, past, p, last);
              && pos == r.pos && last' == r.last
              && totalTips == old(totalTips) + |r.ips|
              && client.View() == Feed(old(client.View()), r.ips)
    {
      hide Feed, Next, Walk;
      ghost var all := Walk(m, past, p, last);
      ghost var done: seq<Word> := [];
      pos, last' := p, last;
      FeedConcat(client.View(), [], []);
      while pos < |m|
        invariant client.Valid() && client.area == old(client.area)
        invariant client.View() == Feed(old(client.View()), done)
        invariant totalTips == old(totalTips) + |done|
        invariant var r := Walk(m, past, pos, last');
                  all.pos == r.pos && all.last == r.last && all.ips == done + r.ips
        decreases |m| - pos
      {
        var stuck, next, ips, l := DecodeOne(m, past, pos, last');
        WalkTurn(m, past, pos, last');
        if stuck {
          break;
        }
        LogIps(ips, client);
        FeedConcat(old(client.View()), done, ips);
        ghost var rest := Walk(m, past, next, l).ips;
        assert done + (ips + rest) == (done + ips) + rest;
        done := done + ips;
        pos, last' := next, l;
      }
      if pos >= |m| {
        WalkOver(m, past, pos, last');
      }
      assert all.ips == done;
    }

    /** `decode`. */
    method DecodeBuffer(m: seq<Byte>, past: Byte, client: AflClient)
      requires client.Valid()
      modifies this, client`prevLoc, client.area
      ensures client.Valid()
      ensures var r := Decode(m, past);
              && totalTips == old(totalTips) + |r.ips|
              && totalPsbs == old(totalPsbs) + r.psbs
              && client.View() == Feed(old(client.View()), r.ips)
    {
      hide Feed, Walk, Scan, FindPsb;
      ghost var all := Decode(m, past);
      ghost var done: seq<Word> := [];
      FeedConcat(client.View(), [], []);
      var p, last := 0, 0 as Word;
      while p < |m|
        invariant client.Valid() && client.View() == Feed(old(client.View()), done)
        invariant totalTips == old(totalTips) + |done|
        invariant all.psbs == totalPsbs - old(totalPsbs) + Scan(m, past, p, last).psbs
        invariant all.ips == done + Scan(m, past, p, last).ips
        decreases |m| - p
      {
        ScanRound(m, past, p, last);
        var found := FindPsb(m[p..]);
        if found.None? {
          break;
        }
        totalPsbs := totalPsbs + 1;
        ghost var w := Walk(m, past, p + found.value, last);
        ghost var rest := Scan(m, past, w.pos, w.last);
        p, last := WalkBuffer(m, past, p + found.value, last, client);
        FeedConcat(old(client.View()), done, w.ips);
        assert done + (w.ips + rest.ips) == (done + w.ips) + rest.ips;
        done := done + w.ips;
      }
      ScanEnd(m, past, p, last);
      assert all.ips == done;
    }
  }
}
