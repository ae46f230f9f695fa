/** The registry of DMA regions (`captureDMARegistration`, `scanSecondaryDMABuffer`). */
module DmaRegistry {
  import opened Words
  import opened Overlay
  import opened DmaFill

  /** Where descriptor structs keep pointers to secondary buffers: struct size, pointer offset, buffer size. */
  datatype Info = Info(structSize: nat, offset: nat, l2Size: nat)

  /** `dma_regs` and `secondary_dma_infos`, fixed by the device model. */
  datatype Config = Config(dmaRegs: map<nat, nat>, infos: map<nat, seq<Info>>) {
    predicate Valid() {
      forall len, m :: len in infos && 0 <= m < |infos[len]| ==> infos[len][m].structSize > 0
    }

    function InfosFor(len: nat): seq<Info> {
      if len in infos then infos[len] else []
    }
  }

  datatype Registry = Registry(dmasg: seq<Region>, starts: set<nat>, level1: seq<Region>, level1Set: bool)

  const EMPTY := Registry([], {}, [], false)

  /** What a four-byte read of guest memory gives. */
  type Word32 = n: nat | n < 0x1_0000_0000

  /** `v & PAGE_MASK`. */
  function PageAlign(v: nat): nat {
    v - v % 4096
  }

  /** The size of the buffers that a register announces, one page by default. */
  function RegisterSize(cfg: Config, reg: nat): nat
    requires reg in cfg.dmaRegs
  {
    if cfg.dmaRegs[reg] == 0 then 4096 else cfg.dmaRegs[reg]
  }

  function Capture(cfg: Config, st: Registry, reg: nat, value: nat): Registry {
    if reg !in cfg.dmaRegs then st
    else
      var r := Region(PageAlign(value), RegisterSize(cfg, reg));
      if r.addr in st.starts then st.(level1Set := true)
      else Registry(st.dmasg + [r], st.starts + {r.addr}, st.level1 + [r], true)
  }

  /** One pointer found in a descriptor. */
  function AddSecondary(st: Registry, pointer: nat, l2Size: nat): Registry {
    var p := PageAlign(pointer);
    if p == 0 || p in st.starts then st
    else st.(dmasg := st.dmasg + [Region(p, l2Size)], starts := st.starts + {p})
  }

  /** Physical address of the pointer in struct `i` of a region. */
  function Slot(r: Region, info: Info, i: nat): nat {
    r.addr + i * info.structSize + info.offset
  }

  function ScanStructs(st: Registry, r: Region, info: Info, mem: nat -> Word32, n: nat): Registry {
    if n == 0 then st
    else AddSecondary(ScanStructs(st, r, info, mem, n - 1), mem(Slot(r, info, n - 1)), info.l2Size)
  }

  /** The registry after a scan, and whether the scan got past its assertions. */
  datatype Outcome = Outcome(ok: bool, st: Registry)

  function ScanInfos(o: Outcome, r: Region, infos: seq<Info>, mem: nat -> Word32, m: nat): Outcome
    requires m <= |infos| && forall j :: 0 <= j < |infos| ==> infos[j].structSize > 0
  {
    if m == 0 then o
    else
      var p := ScanInfos(o, r, infos, mem, m - 1);
      var info := infos[m - 1];
      if !p.ok || r.len % info.structSize != 0 then Outcome(false, p.st)
      else Outcome(true, ScanStructs(p.st, r, info, mem, r.len / info.structSize))
  }

  /** The scan of the first `k` of the given regions. */
  function ScanRegions(cfg: Config, o: Outcome, regions: seq<Region>, mem: nat -> Word32, k: nat): Outcome
    requires cfg.Valid() && k <= |regions|
  {
    if k == 0 then o
    else
      var p := ScanRegions(cfg, o, regions, mem, k - 1);
      if !p.ok then p
      else ScanInfos(p, regions[k - 1], cfg.InfosFor(regions[k - 1].len), mem, |cfg.InfosFor(regions[k - 1].len)|)
  }

  /** `scanSecondaryDMABuffer`: it looks at the regions present at entry. */
  function Scan(cfg: Config, st: Registry, mem: nat -> Word32): Outcome
    requires cfg.Valid()
  {
    ScanRegions(cfg, Outcome(true, st), st.dmasg, mem, |st.dmasg|)
  }

  // ---- the invariant ----

  predicate Subsequence(a: seq<Region>, b: seq<Region>) {
    || a == []
    || (b != [] && Subsequence(a, b[..|b| - 1]))
    || (b != [] && a[|a| - 1] == b[|b| - 1] && Subsequence(a[..|a| - 1], b[..|b| - 1]))
  }

  ghost predicate RegInv(st: Registry) {
    && (forall i, j :: 0 <= i < j < |st.dmasg| ==> st.dmasg[i].addr != st.dmasg[j].addr)
    && (forall i :: 0 <= i < |st.dmasg| ==> st.dmasg[i].addr % 4096 == 0 && st.dmasg[i].addr in st.starts)
    && (forall p :: p in st.starts ==> exists i :: 0 <= i < |st.dmasg| && st.dmasg[i].addr == p)
    && Subsequence(st.level1, st.dmasg)
    && (st.level1Set <==> st.level1 != [])
    && (st.dmasg != [] ==> st.level1 != [])
  }

  /** The list grows at its end only, and secondary scans leave the level-1 list alone. */
  predicate Extends(st: Registry, st': Registry) {
    st.dmasg <= st'.dmasg && st.starts <= st'.starts && st.level1 <= st'.level1 && (st.level1Set ==> st'.level1Set)
  }

  lemma {:induction false} AppendKeeps(st: Registry, r: Region, st': Registry)
    requires RegInv(st) && r.addr % 4096 == 0 && r.addr !in st.starts
    requires st'.dmasg == st.dmasg + [r] && st'.starts == st.starts + {r.addr}
    requires st'.level1 == st.level1 + [r] || (st'.level1 == st.level1 && st.level1 != [])
    requires st'.level1Set <==> st'.level1 != []
    ensures RegInv(st')
  {
    assert st'.dmasg[..|st.dmasg|] == st.dmasg;
    assert st'.level1 == st.level1 + [r] ==> st'.level1[..|st.level1|] == st.level1;
    forall p | p in st'.starts
      ensures exists i :: 0 <= i < |st'.dmasg| && st'.dmasg[i].addr == p
    {
      if p == r.addr {
        assert st'.dmasg[|st.dmasg|].addr == p;
      } else {
        var i :| 0 <= i < |st.dmasg| && st.dmasg[i].addr == p;
        assert st'.dmasg[i].addr == p;
      }
    }
  }

  lemma {:induction false} PageAligned(v: nat)
    ensures PageAlign(v) % 4096 == 0 && PageAlign(v) <= v < PageAlign(v) + 4096
  {
    assert v == (v / 4096) * 4096 + v % 4096;
  }

  lemma {:induction false} CaptureKeeps(cfg: Config, st: Registry, reg: nat, value: nat)
    requires RegInv(st)
    ensures RegInv(Capture(cfg, st, reg, value)) && Extends(st, Capture(cfg, st, reg, value))
  {
    hide PageAlign;
    if reg in cfg.dmaRegs {
      PageAligned(value);
      var r := Region(PageAlign(value), RegisterSize(cfg, reg));
      if r.addr !in st.starts {
        AppendKeeps(st, r, Capture(cfg, st, reg, value));
      }
    }
  }

  /**
    * A write to a register that announces DMA buffers registers the page of the address written, under the
    * size configured for that register (one page by default); repeating it changes nothing more, and
    * writes to other registers change nothing at all.
    */
  lemma {:induction false} CaptureRegisters(cfg: Config, st: Registry, reg: nat, value: nat)
    requires RegInv(st)
    ensures var t := Capture(cfg, st, reg, value);
            && Capture(cfg, t, reg, value) == t
            && (reg !in cfg.dmaRegs ==> t == st)
            && (reg in cfg.dmaRegs ==>
                 && t.level1Set
                 && exists r :: r in t.dmasg && r.addr <= value < r.addr + 4096
                                && (r !in st.dmasg ==>
                                      && t.dmasg == st.dmasg + [r] && t.level1 == st.level1 + [r]
                                      && (cfg.dmaRegs[reg] != 0 ==> r.len == cfg.dmaRegs[reg])
                                      && (cfg.dmaRegs[reg] == 0 ==> r.len == 4096)))
  {
    hide PageAlign;
    PageAligned(value);
    var t := Capture(cfg, st, reg, value);
    if reg in cfg.dmaRegs {
      var p := PageAlign(value);
      if p in st.starts {
        var i :| 0 <= i < |st.dmasg| && st.dmasg[i].addr == p;
        assert st.dmasg[i] in t.dmasg;
      } else {
        assert t.dmasg[|st.dmasg|] in t.dmasg;
      }
    }
  }

  /** Secondary scanning, step by step: the invariant, growth, and which starts are added. */
  lemma {:induction false} AddKeeps(st: Registry, pointer: nat, l2Size: nat)
    requires RegInv(st) && st.level1 != []
    ensures var t := AddSecondary(st, pointer, l2Size);
            RegInv(t) && Extends(st, t) && t.level1 == st.level1
    ensures forall p :: p in AddSecondary(st, pointer, l2Size).starts <==>
              p in st.starts || (p != 0 && p == PageAlign(pointer))
    ensures var t := AddSecondary(st, pointer, l2Size);
            || t.dmasg == st.dmasg
            || (PageAlign(pointer) != 0 && t.dmasg == st.dmasg + [Region(PageAlign(pointer), l2Size)])
  {
    hide PageAlign;
    PageAligned(pointer);
    var p := PageAlign(pointer);
    if p != 0 && p !in st.starts {
      AppendKeeps(st, Region(p, l2Size), AddSecondary(st, pointer, l2Size));
    }
  }

  ghost predicate FoundInStructs(p: nat, r: Region, info: Info, mem: nat -> Word32, n: nat) {
    p != 0 && exists i :: 0 <= i < n && p == PageAlign(mem(Slot(r, info, i)))
  }

  lemma {:induction false} ScanStructsKeeps(st: Registry, r: Region, info: Info, mem: nat -> Word32, n: nat)
    requires RegInv(st) && st.level1 != []
    ensures var t := ScanStructs(st, r, info, mem, n);
            RegInv(t) && Extends(st, t) && t.level1 == st.level1
    ensures forall p :: p in ScanStructs(st, r, info, mem, n).starts <==>
              p in st.starts || FoundInStructs(p, r, info, mem, n)
    ensures var t := ScanStructs(st, r, info, mem, n);
            forall x :: |st.dmasg| <= x < |t.dmasg| ==>
              t.dmasg[x].len == info.l2Size && FoundInStructs(t.dmasg[x].addr, r, info, mem, n)
  {
    hide RegInv, AddSecondary, PageAlign, Slot;
    if n > 0 {
      ScanStructsKeeps(st, r, info, mem, n - 1);
      AddKeeps(ScanStructs(st, r, info, mem, n - 1), mem(Slot(r, info, n - 1)), info.l2Size);
    }
  }

  ghost predicate FoundInInfos(p: nat, r: Region, infos: seq<Info>, mem: nat -> Word32, m: nat)
    requires m <= |infos| && forall j :: 0 <= j < |infos| ==> infos[j].structSize > 0
  {
    exists j :: 0 <= j < m && FoundInStructs(p, r, infos[j], mem, r.len / infos[j].structSize)
  }

  /** A region was found by one of the first `m` infos and has the size that info gives. */
  ghost predicate NewByInfos(q: Region, r: Region, infos: seq<Info>, mem: nat -> Word32, m: nat)
    requires m <= |infos| && forall j :: 0 <= j < |infos| ==> infos[j].structSize > 0
  {
    exists j ::
      && 0 <= j < m && q.len == infos[j].l2Size
      && FoundInStructs(q.addr, r, infos[j], mem, r.len / infos[j].structSize)
  }

  lemma {:induction false} ScanInfosKeeps(o: Outcome, r: Region, infos: seq<Info>, mem: nat -> Word32, m: nat)
    requires m <= |infos| && forall j :: 0 <= j < |infos| ==> infos[j].structSize > 0
    requires RegInv(o.st) && o.st.level1 != []
    ensures var t := ScanInfos(o, r, infos, mem, m);
            && RegInv(t.st) && Extends(o.st, t.st) && t.st.level1 == o.st.level1
            && (t.ok <==> o.ok && forall j :: 0 <= j < m ==> r.len % infos[j].structSize == 0)
            && (t.ok ==> forall p :: p in t.st.starts <==> p in o.st.starts || FoundInInfos(p, r, infos, mem, m))
            && (forall x :: |o.st.dmasg| <= x < |t.st.dmasg| ==> NewByInfos(t.st.dmasg[x], r, infos, mem, m))
  {
    hide RegInv, ScanStructs, FoundInStructs;
    if m > 0 {
      var q := ScanInfos(o, r, infos, mem, m - 1);
      ScanInfosKeeps(o, r, infos, mem, m - 1);
      if q.ok && r.len % infos[m - 1].structSize == 0 {
        ScanStructsKeeps(q.st, r, infos[m - 1], mem, r.len / infos[m - 1].structSize);
      }
    }
  }

  ghost predicate FoundInRegions(cfg: Config, p: nat, regions: seq<Region>, mem: nat -> Word32, k: nat)
    requires cfg.Valid() && k <= |regions|
  {
    exists i ::
      0 <= i < k && FoundInInfos(p, regions[i], cfg.InfosFor(regions[i].len), mem, |cfg.InfosFor(regions[i].len)|)
  }

  ghost predicate NewByRegions(cfg: Config, q: Region, regions: seq<Region>, mem: nat -> Word32, k: nat)
    requires cfg.Valid() && k <= |regions|
  {
    exists i ::
      0 <= i < k && NewByInfos(q, regions[i], cfg.InfosFor(regions[i].len), mem, |cfg.InfosFor(regions[i].len)|)
  }

  /** Every struct size configured for a region's length divides it. */
  ghost predicate Divisible(cfg: Config, r: Region)
    requires cfg.Valid()
  {
    forall j :: 0 <= j < |cfg.InfosFor(r.len)| ==> r.len % cfg.InfosFor(r.len)[j].structSize == 0
  }

  lemma {:induction false} ScanRegionsKeeps(cfg: Config, o: Outcome, regions: seq<Region>, mem: nat -> Word32, k: nat)
    requires cfg.Valid() && k <= |regions| && o.ok
    requires RegInv(o.st) && (regions != [] ==> o.st.level1 != [])
    ensures var t := ScanRegions(cfg, o, regions, mem, k);
            && RegInv(t.st) && Extends(o.st, t.st) && t.st.level1 == o.st.level1
            && (t.ok <==> forall i :: 0 <= i < k ==> Divisible(cfg, regions[i]))
            && (t.ok ==> forall p :: p in t.st.starts <==> p in o.st.starts || FoundInRegions(cfg, p, regions, mem, k))
            && (forall x :: |o.st.dmasg| <= x < |t.st.dmasg| ==> NewByRegions(cfg, t.st.dmasg[x], regions, mem, k))
  {
    hide RegInv, ScanInfos, FoundInInfos, NewByInfos;
    if k > 0 {
      ScanRegionsKeeps(cfg, o, regions, mem, k - 1);
      var q, r := ScanRegions(cfg, o, regions, mem, k - 1), regions[k - 1];
      if q.ok {
        ScanInfosKeeps(q, r, cfg.InfosFor(r.len), mem, |cfg.InfosFor(r.len)|);
      }
    }
  }

  lemma {:induction false} FoundIsLow(p: nat, r: Region, info: Info, mem: nat -> Word32, n: nat)
    requires FoundInStructs(p, r, info, mem, n)
    ensures p < 0x1_0000_0000
  {
    hide Slot, PageAlign;
    var i :| 0 <= i < n && p == PageAlign(mem(Slot(r, info, i)));
    PageAligned(mem(Slot(r, info, i)));
  }

  lemma {:induction false} NewIsLow(cfg: Config, q: Region, regions: seq<Region>, mem: nat -> Word32, k: nat)
    requires cfg.Valid() && k <= |regions| && NewByRegions(cfg, q, regions, mem, k)
    ensures q.addr < 0x1_0000_0000
  {
    hide FoundInStructs;
    var i :| 0 <= i < k && NewByInfos(q, regions[i], cfg.InfosFor(regions[i].len), mem, |cfg.InfosFor(regions[i].len)|);
    var r, infos := regions[i], cfg.InfosFor(regions[i].len);
    var m :|
      && 0 <= m < |infos| && q.len == infos[m].l2Size
      && FoundInStructs(q.addr, r, infos[m], mem, r.len / infos[m].structSize);
    FoundIsLow(q.addr, r, infos[m], mem, r.len / infos[m].structSize);
  }

  predicate PageOf(address: nat, p: nat) {
    p != 0 && p % 4096 == 0 && p <= address < p + 4096
  }

  ghost predicate PointsBy(r: Region, info: Info, mem: nat -> Word32, p: nat, size: nat) {
    info.structSize > 0 && info.l2Size == size && exists i: nat ::
      i < r.len / info.structSize && PageOf(mem(r.addr + i * info.structSize + info.offset), p)
  }

  /** A descriptor of region `r` points into the page that starts at `p`, and buffers it points to have `size`
      bytes: in some struct of a size configured for the region's length, the four bytes at the configured
      offset are an address of that page. */
  ghost predicate PointsTo(cfg: Config, r: Region, mem: nat -> Word32, p: nat, size: nat) {
    r.len in cfg.infos && exists m :: 0 <= m < |cfg.infos[r.len]| && PointsBy(r, cfg.infos[r.len][m], mem, p, size)
  }

  lemma {:induction false} PagesApart(a: nat, b: nat)
    requires a % 4096 == 0 && b % 4096 == 0 && a < b
    ensures a + 4096 <= b
  {
  }

  lemma {:induction false} PageOfExactly(v: nat, p: nat)
    ensures PageOf(v, p) <==> p != 0 && p == PageAlign(v)
  {
    hide PageAlign;
    PageAligned(v);
    if PageOf(v, p) && p != PageAlign(v) {
      var q := PageAlign(v);
      if p < q {
        PagesApart(p, q);
      } else {
        PagesApart(q, p);
      }
    }
  }

  lemma {:induction false} FoundExactly(p: nat, r: Region, info: Info, mem: nat -> Word32)
    requires info.structSize > 0
    ensures FoundInStructs(p, r, info, mem, r.len / info.structSize) <==> PointsBy(r, info, mem, p, info.l2Size)
  {
    hide PageAlign, PageOf;
    var n := r.len / info.structSize;
    forall i: nat
      ensures PageOf(mem(r.addr + i * info.structSize + info.offset), p) <==>
              p != 0 && p == PageAlign(mem(Slot(r, info, i)))
    {
      PageOfExactly(mem(Slot(r, info, i)), p);
    }
    if FoundInStructs(p, r, info, mem, n) {
      var i :| 0 <= i < n && p == PageAlign(mem(Slot(r, info, i)));
      assert PageOf(mem(r.addr + i * info.structSize + info.offset), p);
    }
    if PointsBy(r, info, mem, p, info.l2Size) {
      var i: nat :| i < n && PageOf(mem(r.addr + i * info.structSize + info.offset), p);
      assert p == PageAlign(mem(Slot(r, info, i)));
    }
  }

  lemma {:induction false} SizeOf(r: Region, info: Info, mem: nat -> Word32, p: nat, size: nat)
    requires PointsBy(r, info, mem, p, size)
    ensures info.structSize > 0 && size == info.l2Size
  {
  }

  lemma {:induction false} InfosExactly(cfg: Config, p: nat, r: Region, mem: nat -> Word32)
    requires cfg.Valid()
    ensures var infos := cfg.InfosFor(r.len);
            FoundInInfos(p, r, infos, mem, |infos|) <==> exists size :: PointsTo(cfg, r, mem, p, size)
  {
    hide FoundInStructs, PointsBy;
    var infos := cfg.InfosFor(r.len);
    forall m | 0 <= m < |infos|
      ensures FoundInStructs(p, r, infos[m], mem, r.len / infos[m].structSize) <==>
              PointsBy(r, infos[m], mem, p, infos[m].l2Size)
    {
      FoundExactly(p, r, infos[m], mem);
    }
    if FoundInInfos(p, r, infos, mem, |infos|) {
      var m :| 0 <= m < |infos| && FoundInStructs(p, r, infos[m], mem, r.len / infos[m].structSize);
      assert PointsTo(cfg, r, mem, p, infos[m].l2Size);
    }
    if size :| PointsTo(cfg, r, mem, p, size) {
      var m :| 0 <= m < |infos| && PointsBy(r, infos[m], mem, p, size);
      SizeOf(r, infos[m], mem, p, size);
    }
  }

  lemma {:induction false} NewPoints(cfg: Config, q: Region, regions: seq<Region>, mem: nat -> Word32, k: nat)
    requires cfg.Valid() && k <= |regions| && NewByRegions(cfg, q, regions, mem, k)
    ensures q.addr < 0x1_0000_0000 && exists i :: 0 <= i < k && PointsTo(cfg, regions[i], mem, q.addr, q.len)
  {
    hide FoundInStructs, PointsBy;
    NewIsLow(cfg, q, regions, mem, k);
    var i :| 0 <= i < k && NewByInfos(q, regions[i], cfg.InfosFor(regions[i].len), mem, |cfg.InfosFor(regions[i].len)|);
    var r, infos := regions[i], cfg.InfosFor(regions[i].len);
    var m :|
      && 0 <= m < |infos| && q.len == infos[m].l2Size
      && FoundInStructs(q.addr, r, infos[m], mem, r.len / infos[m].structSize);
    FoundExactly(q.addr, r, infos[m], mem);
    assert PointsTo(cfg, r, mem, q.addr, q.len);
  }

  lemma {:induction false} FoundPoints(cfg: Config, p: nat, regions: seq<Region>, mem: nat -> Word32)
    requires cfg.Valid()
    ensures FoundInRegions(cfg, p, regions, mem, |regions|) <==>
            exists i, size :: 0 <= i < |regions| && PointsTo(cfg, regions[i], mem, p, size)
  {
    hide FoundInInfos, PointsTo;
    forall i | 0 <= i < |regions|
      ensures var infos := cfg.InfosFor(regions[i].len);
              FoundInInfos(p, regions[i], infos, mem, |infos|) <==>
              exists size :: PointsTo(cfg, regions[i], mem, p, size)
    {
      InfosExactly(cfg, p, regions[i], mem);
    }
  }

  /** A struct size configured for a region's length does not divide it. */
  ghost predicate Uneven(cfg: Config, r: Region)
    requires cfg.Valid()
  {
    r.len in cfg.infos && exists m :: 0 <= m < |cfg.infos[r.len]| && r.len % cfg.infos[r.len][m].structSize != 0
  }

  lemma {:induction false} DivisibleExactly(cfg: Config, r: Region)
    requires cfg.Valid()
    ensures Divisible(cfg, r) <==> !Uneven(cfg, r)
  {
    var infos := cfg.InfosFor(r.len);
    if !Divisible(cfg, r) {
      var m :| 0 <= m < |infos| && r.len % infos[m].structSize != 0;
      assert r.len % cfg.infos[r.len][m].structSize != 0;
    }
    if Uneven(cfg, r) {
      var m :| 0 <= m < |cfg.infos[r.len]| && r.len % cfg.infos[r.len][m].structSize != 0;
      assert infos[m] == cfg.infos[r.len][m];
    }
  }

  /**
    * A secondary scan fails its assertion exactly when a configured struct size does not divide the
    * length of a region present at entry; otherwise the starts afterwards are exactly those before and the
    * pages that descriptors of those regions point to.  Each new region has the buffer size configured for
    * a descriptor that points to it.  Pointers are read as four bytes, so only regions below 4 GiB are found.
    */
  lemma {:induction false} ScanMeaning(cfg: Config, st: Registry, mem: nat -> Word32)
    requires cfg.Valid() && RegInv(st)
    ensures var t := Scan(cfg, st, mem);
            && RegInv(t.st) && Extends(st, t.st) && t.st.level1 == st.level1
            && (t.ok <==> forall i :: 0 <= i < |st.dmasg| ==> !Uneven(cfg, st.dmasg[i]))
            && (t.ok ==> forall p :: p in t.st.starts <==>
                  p in st.starts || exists i, size :: 0 <= i < |st.dmasg| && PointsTo(cfg, st.dmasg[i], mem, p, size))
            && (forall x :: |st.dmasg| <= x < |t.st.dmasg| ==>
                  && t.st.dmasg[x].addr < 0x1_0000_0000
                  && exists i ::
                       && 0 <= i < |st.dmasg|
                       && PointsTo(cfg, st.dmasg[i], mem, t.st.dmasg[x].addr, t.st.dmasg[x].len))
  {
    assert st.dmasg != [] ==> st.level1 != [];
    hide RegInv, ScanRegions, FoundInRegions, NewByRegions, PointsTo, Divisible, Uneven;
    ScanRegionsKeeps(cfg, Outcome(true, st), st.dmasg, mem, |st.dmasg|);
    var t := Scan(cfg, st, mem);
    forall x | |st.dmasg| <= x < |t.st.dmasg|
      ensures t.st.dmasg[x].addr < 0x1_0000_0000
      ensures exists i ::
                0 <= i < |st.dmasg| && PointsTo(cfg, st.dmasg[i], mem, t.st.dmasg[x].addr, t.st.dmasg[x].len)
    {
      assert NewByRegions(cfg, t.st.dmasg[x], st.dmasg, mem, |st.dmasg|);
      NewPoints(cfg, t.st.dmasg[x], st.dmasg, mem, |st.dmasg|);
    }
    forall p
      ensures FoundInRegions(cfg, p, st.dmasg, mem, |st.dmasg|) <==>
              exists i, size :: 0 <= i < |st.dmasg| && PointsTo(cfg, st.dmasg[i], mem, p, size)
    {
      FoundPoints(cfg, p, st.dmasg, mem);
    }
    forall i | 0 <= i < |st.dmasg|
      ensures Divisible(cfg, st.dmasg[i]) <==> !Uneven(cfg, st.dmasg[i])
    {
      DivisibleExactly(cfg, st.dmasg[i]);
    }
  }

  predicate RegionsDisjoint(regions: seq<Region>) {
    forall k, l :: 0 <= k < l < |regions| ==>
      regions[k].addr + regions[k].len <= regions[l].addr || regions[l].addr + regions[l].len <= regions[k].addr
  }

  /** Registered regions of at most one page are disjoint. */
  lemma {:induction false} SmallRegionsDisjoint(st: Registry)
    requires RegInv(st) && forall i :: 0 <= i < |st.dmasg| ==> st.dmasg[i].len <= 4096
    ensures RegionsDisjoint(st.dmasg)
  {
    forall k, l | 0 <= k < l < |st.dmasg|
      ensures || st.dmasg[k].addr + st.dmasg[k].len <= st.dmasg[l].addr
              || st.dmasg[l].addr + st.dmasg[l].len <= st.dmasg[k].addr
    {
      if st.dmasg[k].addr < st.dmasg[l].addr {
        PagesApart(st.dmasg[k].addr, st.dmasg[l].addr);
      } else {
        PagesApart(st.dmasg[l].addr, st.dmasg[k].addr);
      }
    }
  }

  // ---- any sequence of captures and scans ----

  /** A register write, or a secondary scan in a memory whose four-byte words at any address are `mem`. */
  datatype Op = DoCapture(reg: nat, value: nat) | DoScan(mem: nat -> Word32)

  function RunOps(cfg: Config, ops: seq<Op>): Outcome
    requires cfg.Valid()
  {
    if ops == [] then Outcome(true, EMPTY)
    else
      var o := RunOps(cfg, ops[..|ops| - 1]);
      if !o.ok then o
      else
        match ops[|ops| - 1]
        case DoCapture(reg, value) => Outcome(true, Capture(cfg, o.st, reg, value))
        case DoScan(mem) => Scan(cfg, o.st, mem)
  }

  lemma {:induction false} RunStep(cfg: Config, ops: seq<Op>)
    requires cfg.Valid() && ops != [] && RegInv(RunOps(cfg, ops[..|ops| - 1]).st)
    ensures RegInv(RunOps(cfg, ops).st) && Extends(RunOps(cfg, ops[..|ops| - 1]).st, RunOps(cfg, ops).st)
  {
    hide Capture, Scan, RegInv;
    var o := RunOps(cfg, ops[..|ops| - 1]);
    if o.ok {
      match ops[|ops| - 1]
      case DoCapture(reg, value) => CaptureKeeps(cfg, o.st, reg, value);
      case DoScan(mem) => ScanMeaning(cfg, o.st, mem);
    }
  }

  /**
    * Over any sequence of captures and secondary scans from the empty registry: region starts are
    * pairwise distinct, page-aligned and equal `dma_starts` as a set, `level1_dmas` is a subsequence of
    * `dmasg`, and `level1_dma_set` holds exactly when it is non-empty.
    */
  lemma {:induction false} RegistryRuns(cfg: Config, ops: seq<Op>)
    requires cfg.Valid()
    ensures RegInv(RunOps(cfg, ops).st)
  {
    hide Capture, Scan;
    if ops != [] {
      RegistryRuns(cfg, ops[..|ops| - 1]);
      RunStep(cfg, ops);
    }
  }

  /** The list only ever grows at its end: earlier registries are prefixes of later ones. */
  lemma {:induction false} OnlyGrows(cfg: Config, ops: seq<Op>, k: nat)
    requires cfg.Valid() && k <= |ops|
    ensures Extends(RunOps(cfg, ops[..k]).st, RunOps(cfg, ops).st)
    decreases |ops|
  {
    hide RunOps, RegInv;
    if k == |ops| {
      assert ops[..k] == ops;
    } else {
      var init := ops[..|ops| - 1];
      assert init[..k] == ops[..k];
      OnlyGrows(cfg, init, k);
      RegistryRuns(cfg, init);
      RunStep(cfg, ops);
    }
  }

  // ---- filling the regions a registry holds ----

  /** A size under which a region can be registered: one of a register's, or that of secondary buffers. */
  ghost predicate ConfiguredSize(cfg: Config, n: nat) {
    || (exists reg :: reg in cfg.dmaRegs && n == cfg.dmaRegs[reg] != 0)
    || (n == 4096 && exists reg :: reg in cfg.dmaRegs && cfg.dmaRegs[reg] == 0)
    || (exists len, m :: len in cfg.infos && 0 <= m < |cfg.infos[len]| && n == cfg.infos[len][m].l2Size)
  }

  ghost predicate SizesConfigured(cfg: Config, st: Registry) {
    forall i :: 0 <= i < |st.dmasg| ==> ConfiguredSize(cfg, st.dmasg[i].len)
  }

  lemma {:induction false} CapturedSize(cfg: Config, st: Registry, reg: nat, value: nat)
    ensures var t := Capture(cfg, st, reg, value);
            forall x :: |st.dmasg| <= x < |t.dmasg| ==> ConfiguredSize(cfg, t.dmasg[x].len)
  {
  }

  lemma {:induction false} NewIsConfigured(cfg: Config, r: Region, mem: nat -> Word32, p: nat, size: nat)
    requires PointsTo(cfg, r, mem, p, size)
    ensures ConfiguredSize(cfg, size)
  {
    hide PointsBy;
    var m :| 0 <= m < |cfg.infos[r.len]| && PointsBy(r, cfg.infos[r.len][m], mem, p, size);
    SizeOf(r, cfg.infos[r.len][m], mem, p, size);
  }

  /** Every region that any captures and scans register has a configured size. */
  lemma {:induction false} RegisteredSizes(cfg: Config, ops: seq<Op>)
    requires cfg.Valid()
    ensures SizesConfigured(cfg, RunOps(cfg, ops).st)
  {
    hide Scan, RegInv, PointsTo, ConfiguredSize;
    if ops != [] {
      var o, t := RunOps(cfg, ops[..|ops| - 1]), RunOps(cfg, ops).st;
      RegisteredSizes(cfg, ops[..|ops| - 1]);
      RegistryRuns(cfg, ops[..|ops| - 1]);
      RunStep(cfg, ops);
      forall x | |o.st.dmasg| <= x < |t.dmasg|
        ensures ConfiguredSize(cfg, t.dmasg[x].len)
      {
        match ops[|ops| - 1]
        case DoCapture(reg, value) => CapturedSize(cfg, o.st, reg, value);
        case DoScan(mem) =>
          ScanMeaning(cfg, o.st, mem);
          var i :| 0 <= i < |o.st.dmasg| && PointsTo(cfg, o.st.dmasg[i], mem, t.dmasg[x].addr, t.dmasg[x].len);
          NewIsConfigured(cfg, o.st.dmasg[i], mem, t.dmasg[x].addr, t.dmasg[x].len);
      }
    }
  }

  /** Every field fits every size under which a region can be registered. */
  ghost predicate FitsConfigured(env: Env, cfg: Config) {
    forall j, n :: 0 <= j < |env.fields| && ConfiguredSize(cfg, n) ==> Fits(env.fields[j], n)
  }

  lemma {:induction false} RegisteredRegionsFit(cfg: Config, ops: seq<Op>, env: Env)
    requires cfg.Valid() && FitsConfigured(env, cfg)
    ensures AllFit(env, RunOps(cfg, ops).st.dmasg)
  {
    hide RunOps, ConfiguredSize, Fits;
    RegisteredSizes(cfg, ops);
  }

  /** Where all configured sizes are at most a page, the region that contains an address is the last to. */
  lemma {:induction false} PageOwner(cfg: Config, ops: seq<Op>, k: nat, a: nat)
    requires cfg.Valid() && forall n :: ConfiguredSize(cfg, n) ==> n <= 4096
    requires k < |RunOps(cfg, ops).st.dmasg| && InRegion(RunOps(cfg, ops).st.dmasg[k], a)
    ensures LastContaining(RunOps(cfg, ops).st.dmasg, k, a)
  {
    hide RunOps, ConfiguredSize, RegInv;
    RegisteredSizes(cfg, ops);
    RegistryRuns(cfg, ops);
    SmallRegionsDisjoint(RunOps(cfg, ops).st);
  }

  /**
    * Filling what the registry holds: after any captures and scans, if the models' fields fit the
    * configured sizes, an address outside all registered regions is untouched, and any other holds the
    * raw fuzz byte of the last region containing it overlaid by the model writes of that region.
    */
  lemma {:induction false} RegisteredFill(cfg: Config, ops: seq<Op>, env: Env, a: nat, before: Byte)
    requires cfg.Valid() && env.Valid() && FitsConfigured(env, cfg)
    ensures var regions := RunOps(cfg, ops).st.dmasg;
            var final := ByteAfter(FillWrites(env, regions, |regions|), a, before);
            || ((forall l :: 0 <= l < |regions| ==> !InRegion(regions[l], a)) && final == before)
            || exists k: nat ::
                 && LastContaining(regions, k, a)
                 && final == ByteAfter(ModelPart(env, regions[k], k, Source(env, regions, k)), a,
                                       Under(env, regions, k, a, before))
  {
    hide RunOps, FitsConfigured, AllFit, FillWrites, Source, ModelPart, ByteAfter, Under, Touches;
    var regions := RunOps(cfg, ops).st.dmasg;
    RegisteredRegionsFit(cfg, ops, env);
    if l :| 0 <= l < |regions| && InRegion(regions[l], a) {
      var k := LastContainingExists(regions, l, a);
      ContainingSettles(env, regions, k, a);
      FinalContents(env, regions, k, a, before);
    } else {
      forall l | 0 <= l < |regions|
        ensures !Touches(env, regions, l, a)
      {
        if Touches(env, regions, l, a) {
          FittingTouches(env, regions, l, a);
        }
      }
      OutsideUntouched(env, regions, a, before);
    }
  }

  lemma {:induction false} Aborts(o: Outcome, r: Region, infos: seq<Info>, mem: nat -> Word32, m: nat, n: nat)
    requires m < n <= |infos| && forall j :: 0 <= j < |infos| ==> infos[j].structSize > 0
    requires r.len % infos[m].structSize != 0
    ensures ScanInfos(o, r, infos, mem, n) == Outcome(false, ScanInfos(o, r, infos, mem, m).st)
    decreases n
  {
    if n > m + 1 {
      Aborts(o, r, infos, mem, m, n - 1);
    }
  }

  lemma {:induction false} AbortsRegions(cfg: Config, o: Outcome, regions: seq<Region>, mem: nat -> Word32, k: nat,
                                         n: nat)
    requires cfg.Valid() && k < n <= |regions| && !ScanRegions(cfg, o, regions, mem, k + 1).ok
    ensures ScanRegions(cfg, o, regions, mem, n) == ScanRegions(cfg, o, regions, mem, k + 1)
    decreases n
  {
    if n > k + 1 {
      AbortsRegions(cfg, o, regions, mem, k, n - 1);
    }
  }

  /** The registry part of `Stage2HWModel`. */
  class Stage2Registry {
    const cfg: Config
    var dmasg: seq<Region>
    var dmaStarts: set<nat>
    var level1Dmas: seq<Region>
    var level1DmaSet: bool

    ghost function View(): Registry
      reads this
    {
      Registry(dmasg, dmaStarts, level1Dmas, level1DmaSet)
    }

    constructor (cfg: Config)
      ensures this.cfg == cfg && View() == EMPTY
    {
      this.cfg := cfg;
      dmasg, dmaStarts, level1Dmas, level1DmaSet := [], {}, [], false;
    }

    method CaptureDmaRegistration(reg: nat, value: nat)
      modifies this
      ensures View() == Capture(cfg, old(View()), reg, value)
    {
      if reg in cfg.dmaRegs {
        var sz := cfg.dmaRegs[reg];
        if sz == 0 {
          sz := 4096;
        }
        level1DmaSet := true;
        var p := PageAlign(value);
        if p !in dmaStarts {
          dmaStarts := dmaStarts + {p};
          level1Dmas := level1Dmas + [Region(p, sz)];
          dmasg := dmasg + [Region(p, sz)];
        }
      }
    }

    method ScanOne(r: Region, info: Info, mem: nat -> Word32) returns (ok: bool)
      requires info.structSize > 0
      modifies this
      ensures ok == (r.len % info.structSize == 0)
      ensures View() == if ok then ScanStructs(old(View()), r, info, mem, r.len / info.structSize) else old(View())
    {
      if r.len % info.structSize != 0 {
        return false;
      }
      for i := 0 to r.len / info.structSize
        invariant View() == ScanStructs(old(View()), r, info, mem, i)
      {
        var p := PageAlign(mem(r.addr + i * info.structSize + info.offset));
        if p != 0 && p !in dmaStarts {
          dmasg := dmasg + [Region(p, info.l2Size)];
          dmaStarts := dmaStarts + {p};
        }
      }
      ok := true;
    }

    /** `scanSecondaryDMABuffer`; `ok` is false when its assertion fails. */
    method ScanSecondaryDmaBuffer(mem: nat -> Word32) returns (ok: bool)
      requires cfg.Valid()
      modifies this
      ensures Outcome(ok, View()) == Scan(cfg, old(View()), mem)
    {
      hide ScanStructs;
      var regions := dmasg;
      ok := true;
      for k := 0 to |regions|
        invariant ok && ScanRegions(cfg, Outcome(true, old(View())), regions, mem, k) == Outcome(true, View())
      {
        ghost var o := Outcome(true, View());
        var infos := cfg.InfosFor(regions[k].len);
        for m := 0 to |infos|
          invariant ok && ScanInfos(o, regions[k], infos, mem, m) == Outcome(true, View())
        {
          ok := ScanOne(regions[k], infos[m], mem);
          if !ok {
            Aborts(o, regions[k], infos, mem, m, |infos|);
            AbortsRegions(cfg, Outcome(true, old(View())), regions, mem, k, |regions|);
            return;
          }
        }
      }
    }
  }
}
