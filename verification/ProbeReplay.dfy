/**
  * Replay of recorded probe reads with lazily reset counters (`CHECK_RESET`), for the register tables
  * of `HWModel_de2104x` and any other tables of that form.
  */
module ProbeReplay {
  import opened Words

  /** Values recorded for each register, in the order they are to be read. */
  type Tables = map<nat, seq<bv32>>

  const DE2104X: Tables := map[
    0x0 := [0xff00ffff, 0, 0, 0, 0, 0],
    0x28 := [0],
    0x48 := [0, 0, 0, 0, 0, 0]]

  /** `*((uint32_t *)dest) = v`. */
  function Store32(v: bv32): (s: seq<Byte>)
    ensures |s| == 4
  {
    [(v & 0xff) as bv8, ((v >> 8) & 0xff) as bv8, ((v >> 16) & 0xff) as bv8, ((v >> 24) & 0xff) as bv8]
  }

  /** What a register without a table stores into `dest`. */
  function DefaultBytes(size: nat): seq<Byte> {
    if size == 1 then [0] else if size == 2 then [0, 0] else if size == 4 then [0, 0, 0, 0] else []
  }

  /** Value number `c` of a table; a table that has run out leaves `dest` alone. */
  function TableBytes(table: seq<bv32>, c: nat): seq<Byte> {
    if c < |table| then Store32(table[c]) else []
  }

  /** The return value of `read` and the bytes it stores at the start of `dest`. */
  datatype Out = Out(ret: nat, stored: seq<Byte>)

  function Count(m: map<nat, nat>, reg: nat): nat {
    if reg in m then m[reg] else 0
  }

  /** The machine of the source: each register has a counter and the restart number it was last reset for. */
  datatype Lazy = Lazy(probeLen: nat, restartCnt: nat, cnt: map<nat, nat>, ver: map<nat, nat>)

  const LAZY_INIT := Lazy(0, 0, map[], map[])

  /** The counter of a register after `CHECK_RESET`. */
  function Effective(st: Lazy, reg: nat): nat {
    if st.restartCnt > Count(st.ver, reg) then 0 else Count(st.cnt, reg)
  }

  function LazyRead(t: Tables, st: Lazy, addr: nat, size: nat): (Lazy, Out) {
    if st.probeLen > 16 then (st, Out(0, []))
    else if addr in t then
      var c := Effective(st, addr);
      var ver := if st.restartCnt > Count(st.ver, addr) then st.ver[addr := st.restartCnt] else st.ver;
      (Lazy(st.probeLen + 1, st.restartCnt, st.cnt[addr := c + 1], ver), Out(size, TableBytes(t[addr], c)))
    else (st.(probeLen := st.probeLen + 1), Out(size, DefaultBytes(size)))
  }

  function LazyRestart(st: Lazy): Lazy {
    st.(probeLen := 0, restartCnt := st.restartCnt + 1)
  }

  /** The plain machine: a restart zeroes every counter. */
  datatype Eager = Eager(probeLen: nat, cnt: map<nat, nat>)

  const EAGER_INIT := Eager(0, map[])

  function EagerRead(t: Tables, st: Eager, addr: nat, size: nat): (Eager, Out) {
    if st.probeLen > 16 then (st, Out(0, []))
    else if addr in t then
      var c := Count(st.cnt, addr);
      (Eager(st.probeLen + 1, st.cnt[addr := c + 1]), Out(size, TableBytes(t[addr], c)))
    else (st.(probeLen := st.probeLen + 1), Out(size, DefaultBytes(size)))
  }

  datatype Op = Read(addr: nat, size: nat) | Restart

  function LazyRun(t: Tables, st: Lazy, ops: seq<Op>): seq<Out>
    decreases |ops|
  {
    if ops == [] then []
    else
      match ops[0]
      case Restart => LazyRun(t, LazyRestart(st), ops[1..])
      case Read(addr, size) =>
        var (st', out) := LazyRead(t, st, addr, size);
        [out] + LazyRun(t, st', ops[1..])
  }

  function EagerRun(t: Tables, st: Eager, ops: seq<Op>): seq<Out>
    decreases |ops|
  {
    if ops == [] then []
    else
      match ops[0]
      case Restart => EagerRun(t, EAGER_INIT, ops[1..])
      case Read(addr, size) =>
        var (st', out) := EagerRead(t, st, addr, size);
        [out] + EagerRun(t, st', ops[1..])
  }

  /** Version stamps never run ahead, and every counter is what the plain machine's counter is. */
  ghost predicate Simulates(st: Lazy, e: Eager) {
    && st.probeLen == e.probeLen
    && forall reg: nat :: Count(st.ver, reg) <= st.restartCnt && Effective(st, reg) == Count(e.cnt, reg)
  }

  lemma {:induction false} ReadSimulates(t: Tables, st: Lazy, e: Eager, addr: nat, size: nat)
    requires Simulates(st, e)
    ensures Simulates(LazyRead(t, st, addr, size).0, EagerRead(t, e, addr, size).0)
    ensures LazyRead(t, st, addr, size).1 == EagerRead(t, e, addr, size).1
  {
    hide TableBytes, DefaultBytes;
    var st', e' := LazyRead(t, st, addr, size).0, EagerRead(t, e, addr, size).0;
    forall reg: nat
      ensures Count(st'.ver, reg) <= st'.restartCnt && Effective(st', reg) == Count(e'.cnt, reg)
    {
      assert Count(st.ver, reg) <= st.restartCnt && Effective(st, reg) == Count(e.cnt, reg);
    }
    assert Effective(st, addr) == Count(e.cnt, addr);
  }

  /** A restart makes every stamp stale, which reads as all counters being zero. */
  lemma {:induction false} RestartSimulates(st: Lazy, e: Eager)
    requires Simulates(st, e)
    ensures Simulates(LazyRestart(st), EAGER_INIT)
  {
    forall reg: nat
      ensures Effective(LazyRestart(st), reg) == 0 && Count(st.ver, reg) <= st.restartCnt + 1
    {
      assert Count(st.ver, reg) <= st.restartCnt;
    }
  }

  lemma {:induction false} RunSimulates(t: Tables, st: Lazy, e: Eager, ops: seq<Op>)
    requires Simulates(st, e)
    ensures LazyRun(t, st, ops) == EagerRun(t, e, ops)
    decreases |ops|
  {
    hide Simulates, LazyRead, EagerRead, LazyRestart;
    if ops != [] {
      match ops[0]
      case Restart =>
        RestartSimulates(st, e);
        RunSimulates(t, LazyRestart(st), EAGER_INIT, ops[1..]);
      case Read(addr, size) =>
        ReadSimulates(t, st, e, addr, size);
        RunSimulates(t, LazyRead(t, st, addr, size).0, EagerRead(t, e, addr, size).0, ops[1..]);
    }
  }

  /** Lazy reset refines eager reset: under every interleaving of reads and restarts both machines return
      the same values and store the same bytes. */
  lemma {:induction false} LazyRefinesEager(t: Tables, ops: seq<Op>)
    ensures LazyRun(t, LAZY_INIT, ops) == EagerRun(t, EAGER_INIT, ops)
  {
    RunSimulates(t, LAZY_INIT, EAGER_INIT, ops);
  }

  /** Outputs before a restart, then exactly the outputs of a fresh machine. */
  lemma {:induction false} EagerRestartForgets(t: Tables, e: Eager, before: seq<Op>, after: seq<Op>)
    ensures EagerRun(t, e, before + [Restart] + after) == EagerRun(t, e, before) + EagerRun(t, EAGER_INIT, after)
    decreases |before|
  {
    hide EagerRead;
    var all := before + [Restart] + after;
    if before == [] {
      assert all[1..] == after;
    } else {
      assert all[0] == before[0];
      assert all[1..] == before[1..] + [Restart] + after;
      match before[0]
      case Restart =>
        EagerRestartForgets(t, EAGER_INIT, before[1..], after);
      case Read(addr, size) =>
        var (e', out) := EagerRead(t, e, addr, size);
        EagerRestartForgets(t, e', before[1..], after);
        assert [out] + (EagerRun(t, e', before[1..]) + EagerRun(t, EAGER_INIT, after))
            == ([out] + EagerRun(t, e', before[1..])) + EagerRun(t, EAGER_INIT, after);
    }
  }

  /** Every probe after a restart repeats the first one, whatever happened before. */
  lemma {:induction false} ProbeRepeats(t: Tables, before: seq<Op>, probe: seq<Op>)
    ensures LazyRun(t, LAZY_INIT, before + [Restart] + probe) ==
            LazyRun(t, LAZY_INIT, before) + LazyRun(t, LAZY_INIT, probe)
  {
    LazyRefinesEager(t, before + [Restart] + probe);
    LazyRefinesEager(t, before);
    LazyRefinesEager(t, probe);
    EagerRestartForgets(t, EAGER_INIT, before, probe);
  }

  /** The plain machine within one probe, from `probeLen` reads on. */
  lemma {:induction false} EagerSilence(t: Tables, e: Eager, accesses: seq<Op>, i: nat)
    requires i < |accesses| && forall k :: 0 <= k < |accesses| ==> accesses[k].Read?
    ensures |EagerRun(t, e, accesses)| == |accesses|
    ensures EagerRun(t, e, accesses)[i].ret == if e.probeLen + i <= 16 then accesses[i].size else 0
    ensures e.probeLen + i > 16 ==> EagerRun(t, e, accesses)[i].stored == []
    decreases |accesses|
  {
    hide TableBytes, DefaultBytes;
    assert accesses[0].Read?;
    var (e', out) := EagerRead(t, e, accesses[0].addr, accesses[0].size);
    if |accesses| > 1 {
      EagerSilence(t, e', accesses[1..], if i > 0 then i - 1 else 0);
    }
  }

  function TimesRead(accesses: seq<Op>, addr: nat): nat {
    if accesses == [] then 0
    else (if accesses[0].Read? && accesses[0].addr == addr then 1 else 0) + TimesRead(accesses[1..], addr)
  }

  /** Replay order in the plain machine. */
  lemma {:induction false} EagerNthRead(t: Tables, e: Eager, accesses: seq<Op>, i: nat)
    requires i < |accesses| && e.probeLen + i <= 16 && forall k :: 0 <= k < |accesses| ==> accesses[k].Read?
    ensures |EagerRun(t, e, accesses)| == |accesses|
    ensures var addr := accesses[i].addr;
            EagerRun(t, e, accesses)[i].stored ==
            if addr in t then TableBytes(t[addr], Count(e.cnt, addr) + TimesRead(accesses[..i], addr))
            else DefaultBytes(accesses[i].size)
    decreases |accesses|
  {
    hide TableBytes, DefaultBytes;
    EagerSilence(t, e, accesses, i);
    assert accesses[0].Read?;
    if i > 0 {
      var (e', out) := EagerRead(t, e, accesses[0].addr, accesses[0].size);
      EagerNthRead(t, e', accesses[1..], i - 1);
      assert accesses[..i][1..] == accesses[1..][..i - 1];
    }
  }

  /** The reads of one probe after anything that ended with a restart, or of the first probe. */
  ghost predicate ProbeOutputs(t: Tables, before: seq<Op>, accesses: seq<Op>, outs: seq<Out>) {
    && LazyRun(t, LAZY_INIT, accesses) == outs
    && LazyRun(t, LAZY_INIT, before + [Restart] + accesses) == LazyRun(t, LAZY_INIT, before) + outs
  }

  /** A read of one, two or four bytes without a table stores as many zeros, any other nothing. */
  predicate Zeros(s: seq<Byte>, size: nat) {
    && |s| == (if size == 1 || size == 2 || size == 4 then size else 0)
    && forall k :: 0 <= k < |s| ==> s[k] == 0
  }

  lemma {:induction false} TwoValues()
    ensures Store32(0xff00ffff) == [0xff, 0xff, 0x00, 0xff] && Store32(0) == [0, 0, 0, 0]
  {
  }

  lemma {:induction false} De2104xBytes(n: nat)
    ensures DE2104X.Keys == {0x0, 0x28, 0x48}
    ensures TableBytes(DE2104X[0x0], n) ==
            if n == 0 then [0xff, 0xff, 0x00, 0xff] else if n < 6 then [0, 0, 0, 0] else []
    ensures TableBytes(DE2104X[0x28], n) == if n == 0 then [0, 0, 0, 0] else []
    ensures TableBytes(DE2104X[0x48], n) == if n < 6 then [0, 0, 0, 0] else []
  {
    TwoValues();
    hide Store32;
  }

  lemma {:induction false} DefaultIsZeros(size: nat)
    ensures Zeros(DefaultBytes(size), size)
  {
  }

  /** Whatever happened before the last restart: the first 17 reads of a probe are answered, all later ones
      return 0 and leave `dest` alone. */
  lemma {:induction false} SilentAfterSeventeen(t: Tables, before: seq<Op>, accesses: seq<Op>, i: nat)
    returns (outs: seq<Out>)
    requires i < |accesses| && forall k :: 0 <= k < |accesses| ==> accesses[k].Read?
    ensures ProbeOutputs(t, before, accesses, outs) && |outs| == |accesses|
    ensures outs[i].ret == if i <= 16 then accesses[i].size else 0
    ensures i > 16 ==> outs[i].stored == []
  {
    hide LazyRun, EagerRun;
    outs := LazyRun(t, LAZY_INIT, accesses);
    ProbeRepeats(t, before, accesses);
    LazyRefinesEager(t, accesses);
    EagerSilence(t, EAGER_INIT, accesses, i);
  }

  /** A table value is stored little-endian. */
  lemma {:induction false} StoredLittleEndian(v: bv32)
    ensures var s := Store32(v);
            (s[0] as bv32) | ((s[1] as bv32) << 8) | ((s[2] as bv32) << 16) | ((s[3] as bv32) << 24) == v
  {
  }

  /** Replay order: within a probe, whatever happened before the last restart, a read of a register with a
      table stores the next value of that table, counting only earlier reads of the same register. */
  lemma {:induction false} NthReadGetsNthValue(t: Tables, before: seq<Op>, accesses: seq<Op>, i: nat)
    returns (outs: seq<Out>)
    requires i < |accesses| && i <= 16 && forall k :: 0 <= k < |accesses| ==> accesses[k].Read?
    ensures ProbeOutputs(t, before, accesses, outs) && |outs| == |accesses|
    ensures var addr, n, s := accesses[i].addr, TimesRead(accesses[..i], accesses[i].addr), outs[i].stored;
            if addr !in t then Zeros(s, accesses[i].size)
            else if n >= |t[addr]| then s == []
            else
              && |s| == 4
              && (s[0] as bv32) | ((s[1] as bv32) << 8) | ((s[2] as bv32) << 16) | ((s[3] as bv32) << 24) == t[addr][n]
  {
    hide LazyRun, EagerRun, TimesRead, Store32;
    outs := LazyRun(t, LAZY_INIT, accesses);
    ProbeRepeats(t, before, accesses);
    LazyRefinesEager(t, accesses);
    EagerNthRead(t, EAGER_INIT, accesses, i);
    var addr, n := accesses[i].addr, TimesRead(accesses[..i], accesses[i].addr);
    if addr in t && n < |t[addr]| {
      StoredLittleEndian(t[addr][n]);
    }
  }

  /** The values of this device, read for read. */
  lemma {:induction false} De2104xProbe(before: seq<Op>, accesses: seq<Op>, i: nat) returns (outs: seq<Out>)
    requires i < |accesses| && i <= 16 && forall k :: 0 <= k < |accesses| ==> accesses[k].Read?
    ensures ProbeOutputs(DE2104X, before, accesses, outs) && |outs| == |accesses|
    ensures var addr, n, s := accesses[i].addr, TimesRead(accesses[..i], accesses[i].addr), outs[i].stored;
            && (addr == 0 && n == 0 ==> s == [0xff, 0xff, 0x00, 0xff])
            && (addr == 0 && 0 < n < 6 ==> s == [0, 0, 0, 0])
            && (addr == 0x28 && n == 0 ==> s == [0, 0, 0, 0])
            && (addr == 0x48 && n < 6 ==> s == [0, 0, 0, 0])
            && ((addr == 0 || addr == 0x48) && n >= 6 ==> s == [])
            && (addr == 0x28 && n > 0 ==> s == [])
            && (addr != 0 && addr != 0x28 && addr != 0x48 ==> Zeros(s, accesses[i].size))
  {
    hide LazyRun, EagerRun, TimesRead;
    outs := LazyRun(DE2104X, LAZY_INIT, accesses);
    ProbeRepeats(DE2104X, before, accesses);
    LazyRefinesEager(DE2104X, accesses);
    EagerNthRead(DE2104X, EAGER_INIT, accesses, i);
    hide TableBytes, DefaultBytes;
    var addr, n := accesses[i].addr, TimesRead(accesses[..i], accesses[i].addr);
    De2104xBytes(n);
    DefaultIsZeros(accesses[i].size);
  }

  method StorePrefix(dest: array<Byte>, bytes: seq<Byte>)
    requires |bytes| <= dest.Length
    modifies dest
    ensures dest[..] == bytes + old(dest[..])[|bytes|..]
  {
    for i := 0 to |bytes|
      invariant forall k :: 0 <= k < dest.Length ==> dest[k] == if k < i then bytes[k] else old(dest[k])
    {
      dest[i] := bytes[i];
    }
  }

  lemma {:induction false} SameUpdate(m: map<nat, nat>, n: map<nat, nat>, k: nat, v: nat)
    requires k in m && m[k] == v && m - {k} == n - {k}
    ensures m == n[k := v]
  {
    assert m == (m - {k})[k := v];
  }

  lemma {:induction false} Store32Length(table: seq<bv32>, c: nat)
    ensures |TableBytes(table, c)| <= 4
  {
  }

  /** `HWModel_de2104x` with the static counters and version stamps of its `switch` cases. */
  class De2104x {
    var probeLen: nat
    var restartCnt: nat
    var cnt: map<nat, nat>
    var ver: map<nat, nat>

    ghost function View(): Lazy
      reads this
    {
      Lazy(probeLen, restartCnt, cnt, ver)
    }

    constructor ()
      ensures View() == LAZY_INIT
    {
      probeLen, restartCnt, cnt, ver := 0, 0, map[], map[];
    }

    method RestartDevice()
      modifies this
      ensures View() == LazyRestart(old(View()))
    {
      probeLen := 0;
      restartCnt := restartCnt + 1;
    }

    /** `CHECK_RESET` in the case of register `reg`. */
    method CheckReset(reg: nat)
      modifies this`cnt, this`ver
      ensures Count(cnt, reg) == Effective(old(View()), reg)
      ensures cnt - {reg} == old(cnt) - {reg}
      ensures ver == if restartCnt > Count(old(ver), reg) then old(ver)[reg := restartCnt] else old(ver)
    {
      if restartCnt > Count(ver, reg) {
        ver := ver[reg := restartCnt];
        cnt := cnt[reg := 0];
      }
    }

    /** The `switch` of `read`: the bytes to store, with the counters moved on. */
    method NextBytes(addr: nat, size: nat) returns (bytes: seq<Byte>)
      requires probeLen <= 16
      modifies this
      ensures LazyRead(DE2104X, old(View()), addr, size) == (View(), Out(size, bytes))
      ensures |bytes| <= 4
    {
      hide Store32;
      if addr in DE2104X {
        ghost var before := View();
        CheckReset(addr);
        var c := Count(cnt, addr);
        bytes := TableBytes(DE2104X[addr], c);
        cnt := cnt[addr := c + 1];
        SameUpdate(cnt, before.cnt, addr, c + 1);
        Store32Length(DE2104X[addr], c);
      } else {
        bytes := DefaultBytes(size);
      }
      probeLen := probeLen + 1;
    }

    /** `read`: `stored` is what it put at the start of `dest`, the rest of `dest` is left alone. */
    method ReadReg(dest: array<Byte>, addr: nat, size: nat) returns (ret: nat, ghost stored: seq<Byte>)
      requires dest.Length >= 4
      modifies this, dest
      ensures LazyRead(DE2104X, old(View()), addr, size) == (View(), Out(ret, stored))
      ensures |stored| <= 4 && dest[..] == stored + old(dest[..])[|stored|..]
    {
      if probeLen > 16 {
        assert dest[..] == [] + old(dest[..])[0..];
        return 0, [];
      }
      hide LazyRead;
      var bytes := NextBytes(addr, size);
      StorePrefix(dest, bytes);
      return size, bytes;
    }
  }
}
