/** Properties of the packet decoder on every byte buffer: bounds, progress and resynchronisation. */
module PtTheorems {
  import opened Prelude
  import opened Words
  import opened IpCompression
  import opened PtDecoder

  /**
    * Shape of a run from cursor `p`: packets start at increasing offsets inside the buffer, each logs
    * at most one IP, and the cursor ends one past the end exactly after a CYC packet cut off by it.
    */
  predicate Shape(m: seq<Byte>, p: nat, r: Run) {
    && p <= r.pos <= |m| + 1
    && |r.ips| <= |r.visits|
    && Ascending(r.visits)
    && (forall i :: 0 <= i < |r.visits| ==> p <= r.visits[i] < |m| && r.visits[i] < r.pos)
    && (p <= |m| ==> (r.pos == |m| + 1 <==> r.visits != [] && TruncatedCyc(m[r.visits[|r.visits| - 1]..])))
  }

  lemma {:induction false} ShapeThen(m: seq<Byte>, p: nat, a: Run, b: Run)
    requires Shape(m, p, a) && Shape(m, a.pos, b)
    ensures Shape(m, p, a.Then(b))
  {
    hide TruncatedCyc;
    var r := a.Then(b);
    assert forall i :: |a.visits| <= i < |r.visits| ==> r.visits[i] == b.visits[i - |a.visits|];
    if b.visits == [] {
      assert r.visits == a.visits;
    }
  }

  lemma {:induction false} ShapeEnd(m: seq<Byte>, p: nat, q: nat, last: Word)
    requires p <= q <= |m| + 1 && (p <= |m| ==> q <= |m|)
    ensures Shape(m, p, Run([], [], 0, q, last))
  {
  }

  /** One decoded packet has the shape of a run. */
  lemma {:induction false} ShapeOne(m: seq<Byte>, past: Byte, p: nat, last: Word)
    requires p < |m|
    ensures var n := Next(m[p..], past, last);
            n.Advance? ==> n.used >= 1 && p + n.used <= |m| + 1 && Shape(m, p, Run([p], n.ips, 0, p + n.used, n.last))
  {
    hide Next, TruncatedCyc;
    NextBounds(m[p..], past, last);
  }

  lemma {:induction false} WalkShape(m: seq<Byte>, past: Byte, p: nat, last: Word)
    requires p <= |m| + 1
    ensures Shape(m, p, Walk(m, past, p, last))
    decreases |m| - p
  {
    hide Next, Shape;
    ShapeEnd(m, p, p, last);
    if p < |m| {
      ShapeOne(m, past, p, last);
      var n := Next(m[p..], past, last);
      if n.Advance? {
        WalkShape(m, past, p + n.used, n.last);
        ShapeThen(m, p, Run([p], n.ips, 0, p + n.used, n.last), Walk(m, past, p + n.used, n.last));
      }
    }
  }

  /** A walk that starts later and follows a successful PSB search still has the shape. */
  lemma {:induction false} ShapeEarlier(m: seq<Byte>, p: nat, q: nat, w: Run)
    requires p <= q <= |m| && Shape(m, q, w)
    ensures Shape(m, p, w.(psbs := 1)) && w.pos <= |m| + 1
  {
  }

  /** Every PSB search that succeeds accounts for 16 bytes of the buffer. */
  lemma {:induction false} ScanShape(m: seq<Byte>, past: Byte, p: nat, last: Word)
    requires p <= |m| + 1
    ensures var r := Scan(m, past, p, last);
            Shape(m, p, r) && |m| <= r.pos && (p <= |m| ==> 16 * r.psbs <= |m| - p)
    decreases |m| - p
  {
    hide Walk, FindPsb, PsbAt, Shape;
    if p >= |m| {
      ShapeEnd(m, p, p, last);
    } else {
      ScanRound(m, past, p, last);
      ShapeEnd(m, p, |m|, last);
      var found := FindPsb(m[p..]);
      if found.Some? {
        var w := Walk(m, past, p + found.value, last);
        WalkShape(m, past, p + found.value, last);
        ShapeEarlier(m, p, p + found.value, w);
        ScanShape(m, past, w.pos, w.last);
        ShapeThen(m, p, w.(psbs := 1), Scan(m, past, w.pos, w.last));
      }
    }
  }

  lemma {:induction false} AscendingBound(s: seq<nat>, n: nat)
    requires Ascending(s) && forall i :: 0 <= i < |s| ==> s[i] < n
    ensures |s| <= n
  {
    if s != [] {
      AscendingBound(s[..|s| - 1], s[|s| - 1]);
    }
  }

  /**
    * Bounds for every buffer.  The cursor ends at the end of the buffer, or one past it exactly when
    * the last packet decoded is a truncated CYC; there are at most `|m| / 16` PSBs and at most as many
    * logged IPs as packets, whose offsets increase strictly.
    */
  lemma {:induction false} DecodeBounds(m: seq<Byte>, past: Byte)
    ensures var r := Decode(m, past);
            && |m| <= r.pos <= |m| + 1
            && (r.pos == |m| + 1 <==>
                  && r.visits != [] && r.visits[|r.visits| - 1] < |m|
                  && TruncatedCyc(m[r.visits[|r.visits| - 1]..]))
            && 16 * r.psbs <= |m|
            && |r.ips| <= |r.visits| <= |m|
            && Ascending(r.visits)
  {
    hide Scan, TruncatedCyc;
    ScanShape(m, past, 0, 0);
    AscendingBound(Decode(m, past).visits, |m|);
  }

  lemma {:induction false} CycTailPast(t: seq<Byte>, a: Byte, b: Byte)
    ensures CycTail(t, a) == CycTail(t, b)
  {
    if t != [] {
      CycTailPast(t[1..], a, b);
    }
  }

  lemma {:induction false} NextPast(s: seq<Byte>, a: Byte, b: Byte, last: Word)
    requires |s| > 0
    ensures Next(s, a, last) == Next(s, b, last)
  {
    hide ReadIp, CycTail, Extended;
    CycTailPast(s[1..], a, b);
  }

  lemma {:induction false} WalkPast(m: seq<Byte>, a: Byte, b: Byte, p: nat, last: Word)
    ensures Walk(m, a, p, last) == Walk(m, b, p, last)
    decreases |m| - p
  {
    hide Next;
    if p < |m| {
      NextBounds(m[p..], a, last);
      NextPast(m[p..], a, b, last);
      var n := Next(m[p..], a, last);
      if n.Advance? {
        WalkPast(m, a, b, p + n.used, n.last);
      }
    }
  }

  lemma {:induction false} ScanPast(m: seq<Byte>, a: Byte, b: Byte, p: nat, last: Word)
    ensures Scan(m, a, p, last) == Scan(m, b, p, last)
    decreases |m| - p
  {
    hide Walk, FindPsb;
    if p < |m| {
      ScanRound(m, a, p, last);
      ScanRound(m, b, p, last);
      var found := FindPsb(m[p..]);
      if found.Some? {
        WalkPast(m, a, b, p + found.value, last);
        var w := Walk(m, a, p + found.value, last);
        ScanPast(m, a, b, w.pos, w.last);
      }
    }
  }

  /** The byte that a truncated CYC packet looks at behind the buffer has no influence on the result. */
  lemma {:induction false} PastByteIrrelevant(m: seq<Byte>, a: Byte, b: Byte)
    ensures Decode(m, a) == Decode(m, b)
  {
    ScanPast(m, a, b, 0, 0);
  }

  /** No PSB begins in `m[p..q]`. */
  predicate NoPsb(m: seq<Byte>, p: nat, q: nat) {
    forall k :: p <= k < q ==> !PsbAt(m, k)
  }

  lemma {:induction false} PsbAtSuffix(m: seq<Byte>, p: nat, k: nat)
    requires p <= |m|
    ensures PsbAt(m[p..], k) == PsbAt(m, p + k)
  {
    if p + k + 16 <= |m| {
      assert m[p..][k..k + 16] == m[p + k..p + k + 16];
    }
  }

  lemma {:induction false} SameFirstPsb(m: seq<Byte>, p: nat, q: nat)
    requires p <= q < |m| && NoPsb(m, p, q)
    ensures var a, b := FindPsb(m[p..]), FindPsb(m[q..]);
            a.Some? == b.Some? && (a.Some? ==> p + a.value == q + b.value)
  {
    hide FindPsb;
    var a, b := FindPsb(m[p..]), FindPsb(m[q..]);
    if a.Some? {
      PsbAtSuffix(m, p, a.value);
      assert q <= p + a.value;
      PsbAtSuffix(m, q, p + a.value - q);
      assert b.Some? && q + b.value <= p + a.value;
    }
    if b.Some? {
      PsbAtSuffix(m, q, b.value);
      PsbAtSuffix(m, p, q + b.value - p);
      assert a.Some? && p + a.value <= q + b.value;
    }
  }

  /**
    * Resynchronisation: bytes in which no PSB begins contribute nothing, so from wherever the
    * inner loop gave up decoding resumes at the first PSB at or after that point, with `last_ip` kept.
    */
  lemma {:induction false} Resync(m: seq<Byte>, past: Byte, p: nat, q: nat, last: Word)
    requires p <= q <= |m| && NoPsb(m, p, q)
    ensures Scan(m, past, p, last) == Scan(m, past, q, last)
  {
    hide Walk, FindPsb;
    if p < q {
      ScanRound(m, past, p, last);
      forall k: nat
        ensures PsbAt(m[p..], k) == PsbAt(m, p + k)
      {
        PsbAtSuffix(m, p, k);
      }
      if q < |m| {
        ScanRound(m, past, q, last);
        forall k: nat
          ensures PsbAt(m[q..], k) == PsbAt(m, q + k)
        {
          PsbAtSuffix(m, q, k);
        }
        SameFirstPsb(m, p, q);
      }
    }
  }

  /** `r` is the run `q` seen from a buffer in which its bytes start at offset `d`. */
  predicate ShiftOf(r: Run, q: Run, d: nat) {
    && |r.visits| == |q.visits|
    && (forall i :: 0 <= i < |q.visits| ==> r.visits[i] == q.visits[i] + d)
    && r == Run(r.visits, q.ips, q.psbs, q.pos + d, q.last)
  }

  lemma {:induction false} ShiftThen(r1: Run, q1: Run, r2: Run, q2: Run, d: nat)
    requires ShiftOf(r1, q1, d) && ShiftOf(r2, q2, d)
    ensures ShiftOf(r1.Then(r2), q1.Then(q2), d)
    ensures ShiftOf(r1.(psbs := 1).Then(r2), q1.(psbs := 1).Then(q2), d)
  {
    var r, q := r1.Then(r2), q1.Then(q2);
    assert forall i :: 0 <= i < |q.visits| ==> r.visits[i] == q.visits[i] + d;
  }

  lemma {:induction false} ShiftEnd(d: nat, p: nat, last: Word)
    ensures ShiftOf(Run([], [], 0, d + p, last), Run([], [], 0, p, last), d)
  {
  }

  lemma {:induction false} ShiftPos(r: Run, q: Run, d: nat)
    requires ShiftOf(r, q, d)
    ensures r.pos == d + q.pos && r.last == q.last
  {
  }

  lemma {:induction false} OneShift(r: Run, q: Run, d: nat)
    requires |q.visits| == 1 && r == q.(visits := [q.visits[0] + d], pos := q.pos + d)
    ensures ShiftOf(r, q, d)
  {
  }

  lemma {:induction false} WalkShift(g: seq<Byte>, s: seq<Byte>, past: Byte, p: nat, last: Word)
    ensures ShiftOf(Walk(g + s, past, |g| + p, last), Walk(s, past, p, last), |g|)
    decreases |s| - p
  {
    hide Next, ShiftOf, Walk;
    ShiftEnd(|g|, p, last);
    if p >= |s| {
      WalkOver(s, past, p, last);
      WalkOver(g + s, past, |g| + p, last);
    } else {
      assert (g + s)[|g| + p..] == s[p..];
      WalkTurn(s, past, p, last);
      WalkTurn(g + s, past, |g| + p, last);
      var n := Next(s[p..], past, last);
      if n.Advance? {
        WalkShift(g, s, past, p + n.used, n.last);
        var r, q := Run([|g| + p], n.ips, 0, |g| + p + n.used, n.last), Run([p], n.ips, 0, p + n.used, n.last);
        OneShift(r, q, |g|);
        ShiftThen(r, q, Walk(g + s, past, |g| + (p + n.used), n.last), Walk(s, past, p + n.used, n.last), |g|);
      }
    }
  }

  lemma {:induction false} RoundShift(g: seq<Byte>, s: seq<Byte>, past: Byte, q: nat, last: Word)
    requires var w := Walk(s, past, q, last);
             ShiftOf(Scan(g + s, past, |g| + w.pos, w.last), Scan(s, past, w.pos, w.last), |g|)
    ensures var w, w' := Walk(s, past, q, last), Walk(g + s, past, |g| + q, last);
            ShiftOf(w'.(psbs := 1).Then(Scan(g + s, past, w'.pos, w'.last)),
                    w.(psbs := 1).Then(Scan(s, past, w.pos, w.last)), |g|)
  {
    hide Walk, Scan, ShiftOf;
    var w, w' := Walk(s, past, q, last), Walk(g + s, past, |g| + q, last);
    WalkShift(g, s, past, q, last);
    ShiftPos(w', w, |g|);
    ShiftThen(w', w, Scan(g + s, past, w'.pos, w'.last), Scan(s, past, w.pos, w.last), |g|);
  }

  lemma {:induction false} ScanShift(g: seq<Byte>, s: seq<Byte>, past: Byte, p: nat, last: Word)
    ensures ShiftOf(Scan(g + s, past, |g| + p, last), Scan(s, past, p, last), |g|)
    decreases |s| - p
  {
    hide Walk, FindPsb, PsbAt, ShiftOf;
    ShiftEnd(|g|, p, last);
    if p < |s| {
      ShiftEnd(|g|, |s|, last);
      hide Scan;
      assert (g + s)[|g| + p..] == s[p..];
      ScanRound(s, past, p, last);
      ScanRound(g + s, past, |g| + p, last);
      var found := FindPsb(s[p..]);
      if found.Some? {
        var q := p + found.value;
        var w := Walk(s, past, q, last);
        assert |g| + p + found.value == |g| + q;
        ScanShift(g, s, past, w.pos, w.last);
        RoundShift(g, s, past, q, last);
      }
    }
  }

  /** Garbage in front of a stream changes nothing but the offsets. */
  lemma {:induction false} GarbagePrefix(g: seq<Byte>, s: seq<Byte>, past: Byte)
    requires NoPsb(g + s, 0, |g|)
    ensures ShiftOf(Decode(g + s, past), Decode(s, past), |g|)
  {
    hide Scan, ShiftOf;
    Resync(g + s, past, 0, |g|, 0);
    ScanShift(g, s, past, 0, 0);
  }
}
