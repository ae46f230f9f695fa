/** Decoding of compressed instruction pointers (`get_ip_val`). */
module IpCompression {
  import opened Words

  /** Result of reading an IP payload: bytes consumed and the IP, which also becomes `last_ip`. */
  datatype IpRead = IpRead(used: nat, ip: Word)

  /** Payload bytes that an IP packet with this IP-length field carries. */
  function PayloadLen(ipl: Byte): nat {
    if ipl == 0 then 0 else if ipl == 1 then 2 else if ipl == 2 then 4 else if ipl == 3 then 6 else 8
  }

  /** `(v & ~(0xffff << at)) | (h << at)`. */
  function SetLane(v: Word, at: bv64, h: bv16): Word
    requires at <= 48
  {
    (v & !(0xffff << at)) | ((h as bv64) << at)
  }

  /** `((int64_t)(v << 16)) >> 16`: an arithmetic shift, so bit 47 is copied upwards. */
  function SignExtend48(v: Word): Word {
    var w := v << 16;
    if w & 0x8000_0000_0000_0000 != 0 then (w >> 16) | 0xffff_0000_0000_0000 else w >> 16
  }

  function LaneOffset(i: nat): bv64
    requires i < 3
  {
    if i == 0 then 0 else if i == 1 then 16 else 32
  }

  /** `last` with its low `n` 16-bit lanes replaced by the first `n` half-words of `s`. */
  function Merge(s: seq<Byte>, n: nat, last: Word): Word
    requires n <= 3 && 2 * n <= |s|
  {
    if n == 0 then last
    else SetLane(Merge(s, n - 1, last), LaneOffset(n - 1), Load16(s[2 * n - 2], s[2 * n - 1]))
  }

  /** `get_ip_val` on the bytes `s` that remain before the end of the buffer. */
  function ReadIp(s: seq<Byte>, ipl: Byte, last: Word): IpRead {
    if ipl == 0 || |s| < PayloadLen(ipl) then IpRead(0, 0)
    else if ipl == 1 then IpRead(2, SignExtend48(Merge(s, 1, last)))
    else if ipl == 2 then IpRead(4, SignExtend48(Merge(s, 2, last)))
    else if ipl == 3 then IpRead(6, SignExtend48(Merge(s, 3, last)))
    else IpRead(8, Load64(s))
  }

  /** The merging loop of `get_ip_val`; `shift` is 16 times the iteration number. */
  method MergeWords(m: seq<Byte>, p: nat, len: nat, last: Word) returns (next: nat, v: Word)
    requires len <= 3 && p + 2 * len <= |m|
    ensures next == p + 2 * len
    ensures v == Merge(m[p..], len, last)
  {
    hide SetLane, Load16;
    v, next := last, p;
    for i := 0 to len
      invariant next == p + 2 * i
      invariant v == Merge(m[p..], i, last)
    {
      v := SetLane(v, LaneOffset(i), Load16(m[next], m[next + 1]));
      next := next + 2;
    }
  }

  /** `get_ip_val`, reading the buffer `m` from cursor `p`. */
  method GetIpVal(m: seq<Byte>, p: nat, ipl: Byte, last: Word) returns (next: nat, ip: Word)
    requires p <= |m|
    ensures ip == ReadIp(m[p..], ipl, last).ip
    ensures next == p + ReadIp(m[p..], ipl, last).used
    ensures |m| - p < PayloadLen(ipl) ==> next == p && ip == 0
  {
    hide SignExtend48, SetLane, Load16, FromLanes;
    if ipl == 0 {
      return p, 0;
    }
    if ipl < 4 {
      var len := if ipl == 1 then 1 else if ipl == 2 then 2 else 3;
      if |m| - p < len * 2 {
        return p, 0;
      }
      var v;
      next, v := MergeWords(m, p, len, last);
      ip := SignExtend48(v);
    } else {
      if |m| - p < 8 {
        return p, 0;
      }
      ip := Load64(m[p..]);
      next := p + 8;
    }
  }

  /** What a packet with IP length `ipl` carries of the target `ip`: its low bytes. */
  function Payload(ip: Word, ipl: Byte): (s: seq<Byte>)
    ensures |s| == PayloadLen(ipl)
  {
    Store64(ip)[..PayloadLen(ipl)]
  }

  predicate Canonical(ip: Word) {
    SignExtend48(ip) == ip
  }

  /** When the length `ipl` may be used to send `ip` to a decoder whose last IP is `last`. */
  predicate Compressible(last: Word, ip: Word, ipl: Byte) {
    && (1 <= ipl <= 3 ==> Canonical(ip))
    && (ipl == 1 ==> Lane(last, 16) == Lane(ip, 16))
    && (1 <= ipl <= 2 ==> Lane(last, 32) == Lane(ip, 32))
    && (ipl == 0 ==> ip == 0)
  }

  lemma {:induction false} SetLaneLanes(v: Word, at: bv64, h: bv16)
    requires at == 0 || at == 16 || at == 32
    ensures Lane(SetLane(v, at, h), 0) == if at == 0 then h else Lane(v, 0)
    ensures Lane(SetLane(v, at, h), 16) == if at == 16 then h else Lane(v, 16)
    ensures Lane(SetLane(v, at, h), 32) == if at == 32 then h else Lane(v, 32)
  {
    if at == 0 {
    } else if at == 16 {
    } else {
    }
  }

  lemma {:induction false} SignExtendLanes(v: Word)
    ensures Lane(SignExtend48(v), 0) == Lane(v, 0)
    ensures Lane(SignExtend48(v), 16) == Lane(v, 16)
    ensures Lane(SignExtend48(v), 32) == Lane(v, 32)
    ensures Lane(SignExtend48(v), 48) == if Lane(v, 32) >= 0x8000 then 0xffff else 0
  {
  }

  lemma {:induction false} SignExtendTarget(w: Word, ip: Word)
    ensures SignExtend48(w) == ip <==>
              Canonical(ip) && Lane(w, 0) == Lane(ip, 0) && Lane(w, 16) == Lane(ip, 16) && Lane(w, 32) == Lane(ip, 32)
  {
    SignExtendLanes(w);
    SignExtendLanes(ip);
    if Canonical(ip) && Lane(w, 0) == Lane(ip, 0) && Lane(w, 16) == Lane(ip, 16) && Lane(w, 32) == Lane(ip, 32) {
      SameLanes(SignExtend48(w), ip);
    } else if SignExtend48(w) == ip {
      SameLanes(SignExtend48(ip), ip);
    }
  }

  /** Merging the payload of `ip` takes the sent lanes from `ip` and the others from `last`. */
  lemma {:induction false} MergePayload(s: seq<Byte>, n: nat, last: Word, ip: Word)
    requires n <= 3 && 2 * n <= |s|
    requires forall k :: 0 <= k < 2 * n ==> s[k] == Store64(ip)[k]
    ensures Lane(Merge(s, n, last), 0) == Lane(if n > 0 then ip else last, 0)
    ensures Lane(Merge(s, n, last), 16) == Lane(if n > 1 then ip else last, 16)
    ensures Lane(Merge(s, n, last), 32) == Lane(if n > 2 then ip else last, 32)
  {
    hide SetLane;
    if n > 0 {
      MergePayload(s, n - 1, last, ip);
      var h := Load16(s[2 * n - 2], s[2 * n - 1]);
      LoadStore16(Lane(ip, LaneOffset(n - 1)));
      SetLaneLanes(Merge(s, n - 1, last), LaneOffset(n - 1), h);
    }
  }

  lemma {:induction false} MergePrefix(s: seq<Byte>, rest: seq<Byte>, n: nat, last: Word)
    requires n <= 3 && 2 * n <= |s|
    ensures Merge(s + rest, n, last) == Merge(s, n, last)
  {
    hide SetLane, Load16;
    if n > 0 {
      MergePrefix(s, rest, n - 1, last);
    }
  }

  /** Reading a complete payload consumes it and depends on nothing behind it, whatever the last IP is. */
  lemma {:induction false} ReadPayload(s: seq<Byte>, rest: seq<Byte>, ipl: Byte, last: Word)
    requires |s| == PayloadLen(ipl)
    ensures ReadIp(s + rest, ipl, last) == ReadIp(s, ipl, last) && ReadIp(s, ipl, last).used == PayloadLen(ipl)
  {
    hide SignExtend48, Merge, Load16, FromLanes;
    if 1 <= ipl <= 3 {
      MergePrefix(s, rest, if ipl == 1 then 1 else if ipl == 2 then 2 else 3, last);
    }
  }

  /**
    * IP compression round trip.  Whatever follows the payload, the decoder recovers `ip` and consumes
    * exactly the payload if and only if the length was a legal choice for this `last` and `ip`.
    */
  lemma {:induction false} IpRoundTrip(last: Word, ip: Word, ipl: Byte, rest: seq<Byte>)
    ensures ReadIp(Payload(ip, ipl) + rest, ipl, last) == IpRead(PayloadLen(ipl), ip) <==> Compressible(last, ip, ipl)
  {
    hide SignExtend48, SetLane, Merge;
    var s := Payload(ip, ipl) + rest;
    if 1 <= ipl <= 3 {
      var n: nat := if ipl == 1 then 1 else if ipl == 2 then 2 else 3;
      MergePayload(s, n, last, ip);
      SignExtendTarget(Merge(s, n, last), ip);
    } else if ipl >= 4 {
      LoadStore64(ip, rest);
      assert Store64(ip)[..8] == Store64(ip);
    }
  }
}
