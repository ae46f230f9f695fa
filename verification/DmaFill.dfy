/** Filling DMA regions with fuzz data and model values (`Stage2HWModel::feedFuzzDMAData`). */
module DmaFill {
  import opened Prelude
  import opened Words
  import opened Dictionary
  import opened Overlay

  datatype Region = Region(addr: nat, len: nat)

  /** One constrained field of a DMA model: `struct_len` of the model, offset, input and `n_bytes`. */
  datatype Field = Field(structLen: nat, offset: nat, input: Input, size: nat) {
    predicate Valid() {
      structLen > 0 && size <= 8
    }
  }

  /**
    * What one call works with.  `fields` are the fields of all models in iteration order of the maps.
    * `rolls`, `rand64` and `beyond` are the outcomes of `rand()`, by region, field and struct index, and
    * the bytes found behind the fuzz data.
    */
  datatype Env = Env(
    data: seq<Byte>,
    fields: seq<Field>,
    useModel: bool,
    mode: Mode,
    rolls: (nat, nat, nat) -> Rolls,
    rand64: (nat, nat, nat) -> Word,
    beyond: nat -> Byte)
  {
    /** A field without dictionary values is one for which `feedData` never picks one. */
    ghost predicate Valid() {
      forall j :: 0 <= j < |fields| ==>
        && fields[j].Valid()
        && (fields[j].input.dict == [] ==> forall k: nat, i: nat :: !Picks(mode, rolls(k, j, i)))
    }

    function DataAt(i: nat): Byte {
      if i < |data| then data[i] else beyond(i)
    }
  }

  /** The region is walked as an array of structs; otherwise it is taken for a single one. */
  predicate IsArray(len: nat, structLen: nat)
    requires structLen > 0
  {
    len > structLen && len % structLen == 0
  }

  function LoopCount(len: nat, structLen: nat): nat
    requires structLen > 0
  {
    if IsArray(len, structLen) then len / structLen else 1
  }

  /** Offset of struct `i`'s copy of a field. */
  function FieldOffset(f: Field, i: nat): nat {
    f.offset + f.structLen * i
  }

  /** The write for field `j` of struct `i` in region `k`, whose fuzz bytes start at `c`. */
  function ModelWrite(env: Env, r: Region, k: nat, c: nat, j: nat, i: nat): Write
    requires env.Valid() && j < |env.fields|
  {
    var f := env.fields[j];
    var off := FieldOffset(f, i);
    var orig := if r.len > |env.data| then env.rand64(k, j, i) else env.DataAt(c + off) as Word;
    Write(r.addr + off, Store64(FeedData(f.input, env.mode, orig, env.rolls(k, j, i)))[..f.size])
  }

  /** The writes of the first `n` structs for field `j`. */
  function FieldWrites(env: Env, r: Region, k: nat, c: nat, j: nat, n: nat): seq<Write>
    requires env.Valid() && j < |env.fields|
  {
    if n == 0 then [] else FieldWrites(env, r, k, c, j, n - 1) + [ModelWrite(env, r, k, c, j, n - 1)]
  }

  /** The model writes of the first `m` fields. */
  function ModelWrites(env: Env, r: Region, k: nat, c: nat, m: nat): seq<Write>
    requires env.Valid() && m <= |env.fields|
  {
    if m == 0 then []
    else
      ModelWrites(env, r, k, c, m - 1)
      + FieldWrites(env, r, k, c, m - 1, LoopCount(r.len, env.fields[m - 1].structLen))
  }

  /** Where a region's fuzz bytes start, given the cursor before it. */
  function WindowStart(env: Env, r: Region, cursor: nat): nat {
    if cursor + r.len > |env.data| then 0 else cursor
  }

  function RawWrites(env: Env, r: Region, c: nat): seq<Write> {
    if c + r.len <= |env.data| then [Write(r.addr, env.data[c..c + r.len])] else []
  }

  function RegionWrites(env: Env, r: Region, k: nat, c: nat): seq<Write>
    requires env.Valid()
  {
    RawWrites(env, r, c) + if env.useModel then ModelWrites(env, r, k, c, |env.fields|) else []
  }

  /** The cursor `dma_data` after the first `k` regions. */
  function Cursor(env: Env, regions: seq<Region>, k: nat): nat
    requires k <= |regions|
  {
    if k == 0 then 0 else WindowStart(env, regions[k - 1], Cursor(env, regions, k - 1)) + regions[k - 1].len
  }

  /** Where region `k` gets its fuzz bytes from. */
  function Source(env: Env, regions: seq<Region>, k: nat): nat
    requires k < |regions|
  {
    WindowStart(env, regions[k], Cursor(env, regions, k))
  }

  /** All writes to physical memory for the first `k` regions. */
  function FillWrites(env: Env, regions: seq<Region>, k: nat): seq<Write>
    requires env.Valid() && k <= |regions|
  {
    if k == 0 then []
    else FillWrites(env, regions, k - 1) + RegionWrites(env, regions[k - 1], k - 1, Source(env, regions, k - 1))
  }

  /** Guest-physical memory, as the writes made to it. */
  class PhysMem {
    var log: seq<Write>

    /** `cpu_physical_memory_rw` for writing. */
    method WritePhys(at: nat, bytes: seq<Byte>)
      modifies this
      ensures log == old(log) + [Write(at, bytes)]
    {
      log := log + [Write(at, bytes)];
    }

    /** One turn of that loop: the value for field `j` of struct `i`. */
    method FeedSlot(env: Env, r: Region, k: nat, c: nat, j: nat, i: nat, overflowed: bool)
      requires env.Valid() && j < |env.fields| && overflowed == (r.len > |env.data|)
      modifies this
      ensures log == old(log) + [ModelWrite(env, r, k, c, j, i)]
    {
      hide FeedData, Store64;
      var f := env.fields[j];
      var off := f.offset + f.structLen * i;
      var orig := if overflowed then env.rand64(k, j, i) else env.DataAt(c + off) as Word;
      var modelData := FeedData(f.input, env.mode, orig, env.rolls(k, j, i));
      WritePhys(r.addr + off, Store64(modelData)[..f.size]);
    }

    /** The loop over the structs of a region for one field. */
    method FeedField(env: Env, r: Region, k: nat, c: nat, j: nat, overflowed: bool)
      requires env.Valid() && j < |env.fields| && overflowed == (r.len > |env.data|)
      modifies this
      ensures log == old(log) + FieldWrites(env, r, k, c, j, LoopCount(r.len, env.fields[j].structLen))
    {
      hide ModelWrite;
      var f := env.fields[j];
      var loopCnt := 1;
      if r.len > f.structLen && r.len % f.structLen == 0 {
        loopCnt := r.len / f.structLen;
      }
      for i := 0 to loopCnt
        invariant log == old(log) + FieldWrites(env, r, k, c, j, i)
      {
        FeedSlot(env, r, k, c, j, i, overflowed);
      }
    }

    /** The loop over models and fields. */
    method FeedModels(env: Env, r: Region, k: nat, c: nat, overflowed: bool)
      requires env.Valid() && overflowed == (r.len > |env.data|)
      modifies this
      ensures log == old(log) + ModelWrites(env, r, k, c, |env.fields|)
    {
      hide ModelWrite, FieldWrites, LoopCount;
      for j := 0 to |env.fields|
        invariant log == old(log) + ModelWrites(env, r, k, c, j)
      {
        FeedField(env, r, k, c, j, overflowed);
      }
    }

    /** One turn of the loop over the scatter-gather list. */
    method FeedRegion(env: Env, r: Region, k: nat, cursor: nat) returns (next: nat)
      requires env.Valid()
      modifies this
      ensures next == WindowStart(env, r, cursor) + r.len
      ensures log == old(log) + RegionWrites(env, r, k, WindowStart(env, r, cursor))
    {
      hide ModelWrites;
      var dmaData, overflowed := cursor, false;
      if dmaData + r.len > |env.data| {
        dmaData := 0;
      }
      if dmaData + r.len <= |env.data| {
        WritePhys(r.addr, env.data[dmaData..dmaData + r.len]);
      } else {
        overflowed := true;
      }
      if env.useModel {
        FeedModels(env, r, k, dmaData, overflowed);
      }
      next := dmaData + r.len;
    }

    /** `feedFuzzDMAData`. */
    method FeedFuzzDmaData(env: Env, dmasg: seq<Region>)
      requires env.Valid()
      modifies this
      ensures log == old(log) + FillWrites(env, dmasg, |dmasg|)
    {
      hide RegionWrites, WindowStart;
      var dmaData := 0;
      for k := 0 to |dmasg|
        invariant dmaData == Cursor(env, dmasg, k)
        invariant log == old(log) + FillWrites(env, dmasg, k)
      {
        dmaData := FeedRegion(env, dmasg[k], k, dmaData);
      }
    }
  }

  /** Every raw copy reads inside the fuzz data, and exactly the regions larger than it get none. */
  lemma {:induction false} RawCopyInBounds(env: Env, regions: seq<Region>, k: nat)
    requires k < |regions|
    ensures var r, c := regions[k], Source(env, regions, k);
            && (r.len <= |env.data| <==> c + r.len <= |env.data|)
            && RawWrites(env, r, c) == if r.len <= |env.data| then [Write(r.addr, env.data[c..c + r.len])] else []
  {
    hide Cursor;
  }

  /** The field lies inside the struct if the region is an array of structs, otherwise inside the region. */
  predicate Fits(f: Field, len: nat) {
    f.structLen > 0 && f.offset + f.size <= if IsArray(len, f.structLen) then f.structLen else len
  }

  lemma {:induction false} MulMono(a: nat, b: nat, c: nat)
    requires a <= b
    ensures c * a <= c * b
  {
  }

  lemma {:induction false} FitsInRegion(f: Field, len: nat, i: nat)
    requires Fits(f, len) && i < LoopCount(len, f.structLen)
    ensures FieldOffset(f, i) + f.size <= len
  {
    if IsArray(len, f.structLen) {
      var n := LoopCount(len, f.structLen);
      assert f.structLen * n == len;
      MulMono(i + 1, n, f.structLen);
      assert f.structLen * (i + 1) == f.structLen * i + f.structLen;
    }
  }

  /** A region that holds `n` structs and nothing else is walked as these structs; any other region is taken
      for a single one. */
  lemma {:induction false} LoopCounts(len: nat, structLen: nat, n: nat)
    requires structLen > 0
    ensures n > 0 && len == n * structLen ==> LoopCount(len, structLen) == n
    ensures (forall m :: m * structLen != len) || len == 0 ==> LoopCount(len, structLen) == 1
  {
    if n > 0 && len == n * structLen {
      DivModUnique(len, structLen, n, 0);
      if n > 1 {
        MulMono(2, n, structLen);
      }
    }
    if IsArray(len, structLen) {
      assert (len / structLen) * structLen == len;
    }
  }

  lemma {:induction false} LastStruct(f: Field, len: nat)
    requires f.structLen > 0
    ensures var n := LoopCount(len, f.structLen);
            && n >= 1 && FieldOffset(f, 0) == f.offset
            && (IsArray(len, f.structLen) ==> FieldOffset(f, n - 1) + f.structLen == f.offset + len)
  {
    var n := LoopCount(len, f.structLen);
    if IsArray(len, f.structLen) {
      assert len == f.structLen * n;
      assert n >= 1;
      assert f.structLen * n == f.structLen * (n - 1) + f.structLen;
    }
  }

  /** Exactly when the writes for a field stay inside a region, for every region length. */
  lemma {:induction false} StaysInRegionExactly(f: Field, len: nat)
    requires f.structLen > 0
    ensures (forall i :: 0 <= i < LoopCount(len, f.structLen) ==> FieldOffset(f, i) + f.size <= len) <==> Fits(f, len)
  {
    hide FieldOffset;
    LastStruct(f, len);
    if Fits(f, len) {
      forall i | 0 <= i < LoopCount(len, f.structLen)
        ensures FieldOffset(f, i) + f.size <= len
      {
        FitsInRegion(f, len, i);
      }
    }
  }

  lemma {:induction false} ModelWriteSpan(env: Env, r: Region, k: nat, c: nat, j: nat, i: nat)
    requires env.Valid() && j < |env.fields|
    ensures var w := ModelWrite(env, r, k, c, j, i);
            w.at == r.addr + FieldOffset(env.fields[j], i) && |w.bytes| == env.fields[j].size
  {
    hide FeedData, FieldOffset;
  }

  predicate Within(w: Write, r: Region) {
    r.addr <= w.at && w.at + |w.bytes| <= r.addr + r.len
  }

  lemma {:induction false} FieldWriteFrom(env: Env, r: Region, k: nat, c: nat, j: nat, n: nat, w: Write)
    requires env.Valid() && j < |env.fields|
    ensures w in FieldWrites(env, r, k, c, j, n) <==> exists i :: 0 <= i < n && w == ModelWrite(env, r, k, c, j, i)
  {
    hide ModelWrite;
    if n > 0 {
      FieldWriteFrom(env, r, k, c, j, n - 1, w);
    }
  }

  /** `(j, i)` names a write made for a region of the given length: struct `i`'s copy of field `j`. */
  predicate IsSlot(fields: seq<Field>, len: nat, j: int, i: int) {
    0 <= j < |fields| && fields[j].structLen > 0 && 0 <= i < LoopCount(len, fields[j].structLen)
  }

  /** The model writes of a region are one per field and struct index. */
  lemma {:induction false} ModelWriteFrom(env: Env, r: Region, k: nat, c: nat, m: nat, w: Write)
    requires env.Valid() && m <= |env.fields|
    ensures w in ModelWrites(env, r, k, c, m) <==>
            exists j, i :: j < m && IsSlot(env.fields, r.len, j, i) && w == ModelWrite(env, r, k, c, j, i)
  {
    hide ModelWrite, FieldWrites, LoopCount;
    if m > 0 {
      var l: nat := m - 1;
      var n := LoopCount(r.len, env.fields[l].structLen);
      ModelWriteFrom(env, r, k, c, l, w);
      FieldWriteFrom(env, r, k, c, l, n, w);
      if w in FieldWrites(env, r, k, c, l, n) {
        var i :| 0 <= i < n && w == ModelWrite(env, r, k, c, l, i);
        assert IsSlot(env.fields, r.len, l, i);
      }
    }
  }

  lemma {:induction false} SlotOf(env: Env, r: Region, k: nat, c: nat, w: Write) returns (j: nat, i: nat)
    requires env.Valid() && w in ModelWrites(env, r, k, c, |env.fields|)
    ensures IsSlot(env.fields, r.len, j, i) && w == ModelWrite(env, r, k, c, j, i)
    ensures w.at == r.addr + FieldOffset(env.fields[j], i) && |w.bytes| == env.fields[j].size
  {
    hide ModelWrite, ModelWrites, LoopCount, FieldOffset;
    ModelWriteFrom(env, r, k, c, |env.fields|, w);
    j, i :| j < |env.fields| && IsSlot(env.fields, r.len, j, i) && w == ModelWrite(env, r, k, c, j, i);
    ModelWriteSpan(env, r, k, c, j, i);
  }

  predicate InRegion(r: Region, a: nat) {
    r.addr <= a < r.addr + r.len
  }

  // ---- which region writes an address ----

  /** Some write for region `k` covers address `a`. */
  ghost predicate Touches(env: Env, regions: seq<Region>, k: nat, a: nat)
    requires env.Valid() && k < |regions|
  {
    exists w :: w in RegionWrites(env, regions[k], k, Source(env, regions, k)) && w.Covers(a)
  }

  predicate SlotCovers(f: Field, i: nat, r: Region, a: nat) {
    r.addr + FieldOffset(f, i) <= a < r.addr + FieldOffset(f, i) + f.size
  }

  /** A region writes the addresses inside it, unless it is oversized, and those of the models' fields. */
  lemma {:induction false} TouchesExactly(env: Env, regions: seq<Region>, k: nat, a: nat)
    requires env.Valid() && k < |regions|
    ensures var r := regions[k];
            Touches(env, regions, k, a) <==>
            || (InRegion(r, a) && r.len <= |env.data|)
            || (env.useModel && exists j, i :: IsSlot(env.fields, r.len, j, i) && SlotCovers(env.fields[j], i, r, a))
  {
    hide Cursor, ModelWrites, ModelWrite, LoopCount, FieldOffset;
    var r, c := regions[k], Source(env, regions, k);
    RawCopyInBounds(env, regions, k);
    if w :| w in RegionWrites(env, r, k, c) && w.Covers(a) {
      if w !in RawWrites(env, r, c) {
        var j, i := SlotOf(env, r, k, c, w);
      }
    }
    if InRegion(r, a) && r.len <= |env.data| {
      assert RawWrites(env, r, c)[0] in RegionWrites(env, r, k, c);
    }
    if env.useModel {
      if j, i :| IsSlot(env.fields, r.len, j, i) && SlotCovers(env.fields[j], i, r, a) {
        var w := ModelWrite(env, r, k, c, j, i);
        ModelWriteSpan(env, r, k, c, j, i);
        ModelWriteFrom(env, r, k, c, |env.fields|, w);
        assert w in RegionWrites(env, r, k, c) && w.Covers(a);
      }
    }
  }

  /** Every field of every model fits every region. */
  predicate AllFit(env: Env, regions: seq<Region>) {
    forall j, k :: 0 <= j < |env.fields| && 0 <= k < |regions| ==> Fits(env.fields[j], regions[k].len)
  }

  /** Every write for a region stays inside it. */
  lemma {:induction false} WritesStayInRegion(env: Env, regions: seq<Region>, k: nat, w: Write)
    requires env.Valid() && AllFit(env, regions) && k < |regions|
    requires w in RegionWrites(env, regions[k], k, Source(env, regions, k))
    ensures Within(w, regions[k])
  {
    hide Cursor, ModelWrites, ModelWrite, LoopCount, FieldOffset, Fits;
    var r, c := regions[k], Source(env, regions, k);
    if w !in RawWrites(env, r, c) {
      var j, i := SlotOf(env, r, k, c, w);
      FitsInRegion(env.fields[j], r.len, i);
    }
  }

  /** A region writes outside itself if and only if a field with at least one byte does not fit it. */
  lemma {:induction false} StraysExactly(env: Env, regions: seq<Region>, k: nat)
    requires env.Valid() && env.useModel && k < |regions|
    ensures (exists a :: Touches(env, regions, k, a) && !InRegion(regions[k], a)) <==>
            exists j :: 0 <= j < |env.fields| && env.fields[j].size > 0 && !Fits(env.fields[j], regions[k].len)
  {
    hide Touches, Fits, LoopCount, FieldOffset;
    var r := regions[k];
    if a :| Touches(env, regions, k, a) && !InRegion(r, a) {
      TouchesExactly(env, regions, k, a);
      var j, i :| IsSlot(env.fields, r.len, j, i) && SlotCovers(env.fields[j], i, r, a);
      StaysInRegionExactly(env.fields[j], r.len);
    }
    if j :| 0 <= j < |env.fields| && env.fields[j].size > 0 && !Fits(env.fields[j], r.len) {
      StaysInRegionExactly(env.fields[j], r.len);
      var f := env.fields[j];
      var i :| 0 <= i < LoopCount(r.len, f.structLen) && FieldOffset(f, i) + f.size > r.len;
      var a := r.addr + FieldOffset(f, i) + f.size - 1;
      assert IsSlot(env.fields, r.len, j, i) && SlotCovers(f, i, r, a);
      TouchesExactly(env, regions, k, a);
      assert !InRegion(r, a);
    }
  }

  /** No region after region `k` writes address `a`. */
  ghost predicate Settled(env: Env, regions: seq<Region>, k: nat, a: nat)
    requires env.Valid()
  {
    k < |regions| && forall l :: k < l < |regions| ==> !Touches(env, regions, l, a)
  }

  /** An address that some region writes has an owner, the last region that writes it. */
  lemma {:induction false} OwnerExists(env: Env, regions: seq<Region>, l: nat, a: nat) returns (k: nat)
    requires env.Valid() && l < |regions| && Touches(env, regions, l, a)
    ensures l <= k && Settled(env, regions, k, a) && Touches(env, regions, k, a)
    decreases |regions| - l
  {
    hide Touches;
    if m :| l < m < |regions| && Touches(env, regions, m, a) {
      k := OwnerExists(env, regions, m, a);
    } else {
      k := l;
    }
  }

  /** Where all fields fit, a region writes only what it contains. */
  lemma {:induction false} FittingTouches(env: Env, regions: seq<Region>, l: nat, a: nat)
    requires env.Valid() && AllFit(env, regions) && l < |regions| && Touches(env, regions, l, a)
    ensures InRegion(regions[l], a)
  {
    hide RegionWrites, Source, AllFit;
    var w :| w in RegionWrites(env, regions[l], l, Source(env, regions, l)) && w.Covers(a);
    WritesStayInRegion(env, regions, l, w);
  }

  /** Region `k` is the last one of the list that contains address `a`. */
  predicate LastContaining(regions: seq<Region>, k: nat, a: nat) {
    k < |regions| && InRegion(regions[k], a) && forall l :: k < l < |regions| ==> !InRegion(regions[l], a)
  }

  /** An address that lies in some region lies in a last one. */
  lemma {:induction false} LastContainingExists(regions: seq<Region>, l: nat, a: nat) returns (k: nat)
    requires l < |regions| && InRegion(regions[l], a)
    ensures l <= k && LastContaining(regions, k, a)
    decreases |regions| - l
  {
    hide InRegion;
    if m :| l < m < |regions| && InRegion(regions[m], a) {
      k := LastContainingExists(regions, m, a);
    } else {
      k := l;
    }
  }

  /** Where all fields fit, no region after the last one containing an address writes it. */
  lemma {:induction false} ContainingSettles(env: Env, regions: seq<Region>, k: nat, a: nat)
    requires env.Valid() && AllFit(env, regions) && LastContaining(regions, k, a)
    ensures Settled(env, regions, k, a)
  {
    hide Touches, AllFit, InRegion;
    forall l | k < l < |regions|
      ensures !Touches(env, regions, l, a)
    {
      if Touches(env, regions, l, a) {
        FittingTouches(env, regions, l, a);
      }
    }
  }

  // ---- what memory holds afterwards ----

  lemma {:induction false} OtherRegionUntouched(env: Env, regions: seq<Region>, l: nat, a: nat, before: Byte)
    requires env.Valid() && l < |regions| && !Touches(env, regions, l, a)
    ensures ByteAfter(RegionWrites(env, regions[l], l, Source(env, regions, l)), a, before) == before
  {
    hide RegionWrites, Source;
    ByteAfterUntouched(RegionWrites(env, regions[l], l, Source(env, regions, l)), a, before);
  }

  /** Regions from `k` on that do not write an address leave it as the first `k` regions did. */
  lemma {:induction false} RestUntouched(env: Env, regions: seq<Region>, k: nat, n: nat, a: nat, before: Byte)
    requires env.Valid() && k <= n <= |regions| && forall l :: k <= l < n ==> !Touches(env, regions, l, a)
    ensures ByteAfter(FillWrites(env, regions, n), a, before) == ByteAfter(FillWrites(env, regions, k), a, before)
  {
    hide RegionWrites, Source, Touches, ByteAfter;
    if k < n {
      RestUntouched(env, regions, k, n - 1, a, before);
      var own := RegionWrites(env, regions[n - 1], n - 1, Source(env, regions, n - 1));
      ByteAfterConcat(FillWrites(env, regions, n - 1), own, a, before);
      OtherRegionUntouched(env, regions, n - 1, a, ByteAfter(FillWrites(env, regions, n - 1), a, before));
    }
  }

  /** Memory that no region writes is untouched. */
  lemma {:induction false} OutsideUntouched(env: Env, regions: seq<Region>, a: nat, before: Byte)
    requires env.Valid() && forall l :: 0 <= l < |regions| ==> !Touches(env, regions, l, a)
    ensures ByteAfter(FillWrites(env, regions, |regions|), a, before) == before
  {
    hide Touches;
    RestUntouched(env, regions, 0, |regions|, a, before);
  }

  /** A region after which an address is not written decides what it holds in the end, on top of what earlier
      regions wrote. */
  lemma {:induction false} OwnerDecides(env: Env, regions: seq<Region>, k: nat, a: nat, before: Byte)
    requires env.Valid() && Settled(env, regions, k, a)
    ensures ByteAfter(FillWrites(env, regions, |regions|), a, before) ==
            ByteAfter(RegionWrites(env, regions[k], k, Source(env, regions, k)), a,
                      ByteAfter(FillWrites(env, regions, k), a, before))
  {
    hide RegionWrites, Source, Touches, ByteAfter;
    RestUntouched(env, regions, k + 1, |regions|, a, before);
    ByteAfterConcat(FillWrites(env, regions, k), RegionWrites(env, regions[k], k, Source(env, regions, k)), a, before);
  }

  lemma {:induction false} ByteAfterRaw(bytes: seq<Byte>, at: nat, a: nat, before: Byte)
    ensures ByteAfter([Write(at, bytes)], a, before) == if at <= a < at + |bytes| then bytes[a - at] else before
  {
  }

  /** The model writes for a region, if models are in use. */
  function ModelPart(env: Env, r: Region, k: nat, c: nat): seq<Write>
    requires env.Valid()
  {
    if env.useModel then ModelWrites(env, r, k, c, |env.fields|) else []
  }

  /** What a region's model writes are laid over: its raw fuzz byte, or what the regions before it left where
      it has none, because it is oversized or does not contain the address. */
  function Under(env: Env, regions: seq<Region>, k: nat, a: nat, before: Byte): Byte
    requires env.Valid() && k < |regions|
  {
    RawCopyInBounds(env, regions, k);
    if InRegion(regions[k], a) && regions[k].len <= |env.data|
    then env.data[Source(env, regions, k) + (a - regions[k].addr)]
    else ByteAfter(FillWrites(env, regions, k), a, before)
  }

  /**
    * Final contents, for any regions and fields.  An address that no region after region `k` writes holds
    * the raw fuzz byte of region `k`, or what was there before it, overlaid by the model writes of region `k`.
    */
  lemma {:induction false} FinalContents(env: Env, regions: seq<Region>, k: nat, a: nat, before: Byte)
    requires env.Valid() && Settled(env, regions, k, a)
    ensures ByteAfter(FillWrites(env, regions, |regions|), a, before) ==
            ByteAfter(ModelPart(env, regions[k], k, Source(env, regions, k)), a, Under(env, regions, k, a, before))
  {
    hide ModelWrites, Touches, Cursor, FillWrites, ByteAfter, RawWrites;
    var r, c := regions[k], Source(env, regions, k);
    var under := ByteAfter(FillWrites(env, regions, k), a, before);
    OwnerDecides(env, regions, k, a, before);
    RawCopyInBounds(env, regions, k);
    ByteAfterConcat(RawWrites(env, r, c), ModelPart(env, r, k, c), a, under);
    if r.len <= |env.data| {
      ByteAfterRaw(env.data[c..c + r.len], r.addr, a, under);
    } else {
      ByteAfterUntouched([], a, under);
    }
  }

  /** Every address, for any regions and fields: untouched if no region writes it, else as its owner leaves it. */
  lemma {:induction false} FillAnywhere(env: Env, regions: seq<Region>, a: nat, before: Byte)
    requires env.Valid()
    ensures var final := ByteAfter(FillWrites(env, regions, |regions|), a, before);
            || ((forall l :: 0 <= l < |regions| ==> !Touches(env, regions, l, a)) && final == before)
            || exists k: nat ::
                 && Settled(env, regions, k, a) && Touches(env, regions, k, a)
                 && final == ByteAfter(ModelPart(env, regions[k], k, Source(env, regions, k)), a,
                                       Under(env, regions, k, a, before))
  {
    hide Touches, FillWrites, Source, ModelPart, ByteAfter, Under;
    if l :| 0 <= l < |regions| && Touches(env, regions, l, a) {
      var k := OwnerExists(env, regions, l, a);
      FinalContents(env, regions, k, a, before);
    } else {
      OutsideUntouched(env, regions, a, before);
    }
  }

  // ---- one chosen value per struct and field ----

  /** The order in which the writes of a region are made. */
  predicate Later(j: int, i: int, j': int, i': int) {
    j < j' || (j == j' && i < i')
  }

  /** `(j, i)` is the last slot of a region whose write covers `a`. */
  ghost predicate LastSlot(env: Env, r: Region, k: nat, c: nat, a: nat, j: nat, i: nat)
    requires env.Valid()
  {
    && IsSlot(env.fields, r.len, j, i)
    && ModelWrite(env, r, k, c, j, i).Covers(a)
    && forall l, n :: IsSlot(env.fields, r.len, l, n) && Later(j, i, l, n) ==> !ModelWrite(env, r, k, c, l, n).Covers(a)
  }

  /** A byte that some slot covers has a last slot. */
  lemma {:induction false} LastSlotExists(env: Env, r: Region, k: nat, c: nat, a: nat, j: nat, i: nat)
    returns (l: nat, n: nat)
    requires env.Valid() && IsSlot(env.fields, r.len, j, i) && ModelWrite(env, r, k, c, j, i).Covers(a)
    ensures LastSlot(env, r, k, c, a, l, n)
    decreases |env.fields| - j, LoopCount(r.len, env.fields[j].structLen) - i
  {
    hide ModelWrite, LoopCount;
    if x, y :| IsSlot(env.fields, r.len, x, y) && Later(j, i, x, y) && ModelWrite(env, r, k, c, x, y).Covers(a) {
      l, n := LastSlotExists(env, r, k, c, a, x, y);
    } else {
      l, n := j, i;
    }
  }

  lemma {:induction false} LastOfField(env: Env, r: Region, k: nat, c: nat, j: nat, n: nat, i: nat, a: nat,
                                       before: Byte)
    requires env.Valid() && j < |env.fields| && i < n && ModelWrite(env, r, k, c, j, i).Covers(a)
    requires forall i' :: i < i' < n ==> !ModelWrite(env, r, k, c, j, i').Covers(a)
    ensures ByteAfter(FieldWrites(env, r, k, c, j, n), a, before) == ModelWrite(env, r, k, c, j, i).ByteAt(a)
    decreases n
  {
    hide ModelWrite;
    var ws, w := FieldWrites(env, r, k, c, j, n), ModelWrite(env, r, k, c, j, n - 1);
    assert ws[..|ws| - 1] == FieldWrites(env, r, k, c, j, n - 1) && ws[|ws| - 1] == w;
    if i < n - 1 {
      LastOfField(env, r, k, c, j, n - 1, i, a, before);
    }
  }

  lemma {:induction false} FieldUntouched(env: Env, r: Region, k: nat, c: nat, j: nat, n: nat, a: nat, before: Byte)
    requires env.Valid() && j < |env.fields| && forall i :: 0 <= i < n ==> !ModelWrite(env, r, k, c, j, i).Covers(a)
    ensures ByteAfter(FieldWrites(env, r, k, c, j, n), a, before) == before
  {
    hide ModelWrite, FieldWrites, ByteAfter;
    forall w | w in FieldWrites(env, r, k, c, j, n)
      ensures !w.Covers(a)
    {
      FieldWriteFrom(env, r, k, c, j, n, w);
    }
    ByteAfterUntouched(FieldWrites(env, r, k, c, j, n), a, before);
  }

  lemma {:induction false} LastSlotWins(env: Env, r: Region, k: nat, c: nat, m: nat, j: nat, i: nat, a: nat,
                                        before: Byte)
    requires env.Valid() && j < m <= |env.fields| && LastSlot(env, r, k, c, a, j, i)
    ensures ByteAfter(ModelWrites(env, r, k, c, m), a, before) == ModelWrite(env, r, k, c, j, i).ByteAt(a)
    decreases m
  {
    hide ModelWrite, LoopCount, FieldWrites, ByteAfter;
    var l: nat := m - 1;
    var n := LoopCount(r.len, env.fields[l].structLen);
    var before' := ByteAfter(ModelWrites(env, r, k, c, l), a, before);
    ByteAfterConcat(ModelWrites(env, r, k, c, l), FieldWrites(env, r, k, c, l, n), a, before);
    if j == l {
      forall i' | i < i' < n
        ensures !ModelWrite(env, r, k, c, j, i').Covers(a)
      {
        assert IsSlot(env.fields, r.len, j, i') && Later(j, i, j, i');
      }
      LastOfField(env, r, k, c, j, n, i, a, before');
    } else {
      LastSlotWins(env, r, k, c, l, j, i, a, before);
      forall i' | 0 <= i' < n
        ensures !ModelWrite(env, r, k, c, l, i').Covers(a)
      {
        assert IsSlot(env.fields, r.len, l, i') && Later(j, i, l, i');
      }
      FieldUntouched(env, r, k, c, l, n, a, before');
    }
  }

  /**
    * DMA fill, for any regions and fields.  A byte that no region after region `k` writes ends as the byte of
    * the value chosen for the last struct and field of region `k` covering it, or else as the raw fuzz byte.
    */
  lemma {:induction false} FillMeaning(env: Env, regions: seq<Region>, k: nat, a: nat, before: Byte)
    requires env.Valid() && env.useModel && Settled(env, regions, k, a)
    ensures var r, c := regions[k], Source(env, regions, k);
            var final := ByteAfter(FillWrites(env, regions, |regions|), a, before);
            && (forall j: nat, i: nat :: LastSlot(env, r, k, c, a, j, i) ==>
                  final == ModelWrite(env, r, k, c, j, i).ByteAt(a))
            && ((forall j, i :: IsSlot(env.fields, r.len, j, i) ==> !ModelWrite(env, r, k, c, j, i).Covers(a)) ==>
                  final == Under(env, regions, k, a, before))
  {
    hide Touches, Source, ModelWrite, ModelWrites, FillWrites, LoopCount, ByteAfter, Under;
    FinalContents(env, regions, k, a, before);
    var r, c := regions[k], Source(env, regions, k);
    var ws := ModelWrites(env, r, k, c, |env.fields|);
    var under := Under(env, regions, k, a, before);
    forall j: nat, i: nat | LastSlot(env, r, k, c, a, j, i)
      ensures ByteAfter(ws, a, under) == ModelWrite(env, r, k, c, j, i).ByteAt(a)
    {
      LastSlotWins(env, r, k, c, |env.fields|, j, i, a, under);
    }
    if forall j, i :: IsSlot(env.fields, r.len, j, i) ==> !ModelWrite(env, r, k, c, j, i).Covers(a) {
      forall w | w in ws
        ensures !w.Covers(a)
      {
        var j, i := SlotOf(env, r, k, c, w);
      }
      ByteAfterUntouched(ws, a, under);
    }
  }

  // ---- every struct of a region ----

  /** Different slots of a region of the given length occupy different bytes. */
  ghost predicate SlotsApart(fields: seq<Field>, len: nat) {
    forall j, i, l, n :: IsSlot(fields, len, j, i) && IsSlot(fields, len, l, n) && (j != l || i != n) ==>
      || FieldOffset(fields[j], i) + fields[j].size <= FieldOffset(fields[l], n)
      || FieldOffset(fields[l], n) + fields[l].size <= FieldOffset(fields[j], i)
  }

  lemma {:induction false} OnlySlot(env: Env, r: Region, k: nat, c: nat, j: nat, i: nat, a: nat)
    requires env.Valid() && SlotsApart(env.fields, r.len) && IsSlot(env.fields, r.len, j, i)
    requires SlotCovers(env.fields[j], i, r, a)
    ensures LastSlot(env, r, k, c, a, j, i)
  {
    hide ModelWrite, LoopCount, FieldOffset;
    ModelWriteSpan(env, r, k, c, j, i);
    forall l, n | IsSlot(env.fields, r.len, l, n) && Later(j, i, l, n)
      ensures !ModelWrite(env, r, k, c, l, n).Covers(a)
    {
      ModelWriteSpan(env, r, k, c, l, n);
      assert j != l || i != n;
    }
  }

  /** All fields belong to structs of the same length and do not overlap inside it. */
  predicate FieldsApart(fields: seq<Field>, structLen: nat) {
    && (forall j :: 0 <= j < |fields| ==>
          fields[j].structLen == structLen && fields[j].offset + fields[j].size <= structLen)
    && forall j, l :: 0 <= j < l < |fields| ==>
         fields[j].offset + fields[j].size <= fields[l].offset || fields[l].offset + fields[l].size <= fields[j].offset
  }

  lemma {:induction false} StructsApart(s: nat, i: nat, i': nat)
    requires i < i'
    ensures s * i + s <= s * i'
  {
    MulMono(i + 1, i', s);
    assert s * (i + 1) == s * i + s;
  }

  lemma {:induction false} OffsetsApart(f: Field, g: Field, i: nat, i': nat)
    requires f.structLen == g.structLen && f.offset + f.size <= f.structLen && g.offset + g.size <= g.structLen
    requires i != i' || f.offset + f.size <= g.offset || g.offset + g.size <= f.offset
    ensures FieldOffset(f, i) + f.size <= FieldOffset(g, i') || FieldOffset(g, i') + g.size <= FieldOffset(f, i)
  {
    if i < i' {
      StructsApart(f.structLen, i, i');
    } else if i' < i {
      StructsApart(f.structLen, i', i);
    }
  }

  /** Fields of one kind of struct that do not overlap inside it do not overlap in any region. */
  lemma {:induction false} StructFieldsApart(fields: seq<Field>, structLen: nat, len: nat)
    requires FieldsApart(fields, structLen)
    ensures SlotsApart(fields, len)
  {
    hide LoopCount, FieldOffset;
    forall j, i, l, n | IsSlot(fields, len, j, i) && IsSlot(fields, len, l, n) && (j != l || i != n)
      ensures || FieldOffset(fields[j], i) + fields[j].size <= FieldOffset(fields[l], n)
              || FieldOffset(fields[l], n) + fields[l].size <= FieldOffset(fields[j], i)
    {
      OffsetsApart(fields[j], fields[l], i, n);
    }
  }

  /**
    * In a region that holds `n` structs, each of them gets each field: byte `b` of field `j` of struct `i` ends
    * as byte `b` of the value chosen for it, when no later region writes there.
    */
  lemma {:induction false} EveryStructFilled(env: Env, regions: seq<Region>, k: nat, structLen: nat, n: nat,
                                             j: nat, i: nat, b: nat, before: Byte)
    requires env.Valid() && env.useModel && FieldsApart(env.fields, structLen) && structLen > 0
    requires j < |env.fields| && i < n && b < env.fields[j].size
    requires k < |regions| && regions[k].len == n * structLen
    requires Settled(env, regions, k, regions[k].addr + i * structLen + env.fields[j].offset + b)
    ensures var a := regions[k].addr + i * structLen + env.fields[j].offset + b;
            var w := ModelWrite(env, regions[k], k, Source(env, regions, k), j, i);
            |w.bytes| == env.fields[j].size && ByteAfter(FillWrites(env, regions, |regions|), a, before) == w.bytes[b]
  {
    hide Touches, FillWrites, ByteAfter, ModelWrite, SlotsApart, LastSlot, Source;
    var r, c, f := regions[k], Source(env, regions, k), env.fields[j];
    var a := r.addr + i * structLen + f.offset + b;
    LoopCounts(r.len, structLen, n);
    StructFieldsApart(env.fields, structLen, r.len);
    ModelWriteSpan(env, r, k, c, j, i);
    assert structLen * i == i * structLen;
    OnlySlot(env, r, k, c, j, i, a);
    FillMeaning(env, regions, k, a, before);
  }

  // ---- in any order ----

  /** Slots that do not overlap give model writes that do not. */
  lemma {:induction false} ModelWritesApart(env: Env, r: Region, k: nat, c: nat)
    requires env.Valid() && SlotsApart(env.fields, r.len)
    ensures PairwiseApart(ModelWrites(env, r, k, c, |env.fields|))
  {
    hide ModelWrite, FieldOffset, LoopCount, ModelWrites, IsSlot;
    var ws := ModelWrites(env, r, k, c, |env.fields|);
    forall w, v | w in ws && v in ws && w != v
      ensures Apart(w, v)
    {
      var j, i := SlotOf(env, r, k, c, w);
      var l, n := SlotOf(env, r, k, c, v);
      assert j != l || i != n;
    }
  }

  /** In dictionary mode the value written depends on the field and its fuzz byte only. */
  lemma {:induction false} DictWrite(env: Env, env': Env, r: Region, k: nat, c: nat, j: nat, j': nat, i: nat)
    requires env.Valid() && env'.Valid()
    requires j < |env.fields| && j' < |env'.fields| && env.fields[j] == env'.fields[j']
    requires env.mode == env'.mode == DictMode && env.data == env'.data && env.beyond == env'.beyond
    requires r.len <= |env.data|
    ensures ModelWrite(env, r, k, c, j, i) == ModelWrite(env', r, k, c, j', i)
  {
    hide Store64;
  }

  lemma {:induction false} SameModelWrites(env: Env, env': Env, r: Region, k: nat, c: nat, w: Write)
    requires env.Valid() && env'.Valid() && (forall f :: f in env.fields ==> f in env'.fields)
    requires env.mode == env'.mode == DictMode && env.data == env'.data && env.beyond == env'.beyond
    requires r.len <= |env.data| && w in ModelWrites(env, r, k, c, |env.fields|)
    ensures w in ModelWrites(env', r, k, c, |env'.fields|)
  {
    hide ModelWrite, ModelWrites, LoopCount;
    ModelWriteFrom(env', r, k, c, |env'.fields|, w);
    var j, i := SlotOf(env, r, k, c, w);
    assert env.fields[j] in env'.fields;
    var j' :| 0 <= j' < |env'.fields| && env'.fields[j'] == env.fields[j];
    DictWrite(env, env', r, k, c, j, j', i);
    assert IsSlot(env'.fields, r.len, j', i);
  }

  lemma {:induction false} SameSource(env: Env, env': Env, regions: seq<Region>, k: nat)
    requires env.data == env'.data && k <= |regions|
    ensures Cursor(env, regions, k) == Cursor(env', regions, k)
  {
    if k > 0 {
      SameSource(env, env', regions, k - 1);
    }
  }

  /** Which region writes an address does not depend on the order of the fields. */
  lemma {:induction false} SameTouches(env: Env, env': Env, regions: seq<Region>, k: nat, a: nat)
    requires env.Valid() && env'.Valid() && (forall f :: f in env.fields ==> f in env'.fields)
    requires env.useModel == env'.useModel && env.data == env'.data && k < |regions| && Touches(env, regions, k, a)
    ensures Touches(env', regions, k, a)
  {
    hide Touches, LoopCount, SlotCovers;
    var r := regions[k];
    TouchesExactly(env, regions, k, a);
    TouchesExactly(env', regions, k, a);
    if !(InRegion(r, a) && r.len <= |env.data|) {
      var j, i :| IsSlot(env.fields, r.len, j, i) && SlotCovers(env.fields[j], i, r, a);
      assert env.fields[j] in env'.fields;
      var l :| 0 <= l < |env'.fields| && env'.fields[l] == env.fields[j];
      assert IsSlot(env'.fields, r.len, l, i) && SlotCovers(env'.fields[l], i, r, a);
    }
  }

  /** In dictionary mode, where slots do not overlap, the order in which the maps are iterated is irrelevant. */
  lemma {:induction false} DictFillAnyOrder(env: Env, env': Env, regions: seq<Region>, k: nat, a: nat, before: Byte)
    requires env.Valid() && env'.Valid() && env.useModel && env'.useModel
    requires env.mode == env'.mode == DictMode && env.data == env'.data && env.beyond == env'.beyond
    requires forall f :: f in env.fields <==> f in env'.fields
    requires Settled(env, regions, k, a) && InRegion(regions[k], a)
    requires regions[k].len <= |env.data| && SlotsApart(env.fields, regions[k].len)
    ensures ByteAfter(FillWrites(env, regions, |regions|), a, before) ==
            ByteAfter(FillWrites(env', regions, |regions|), a, before)
  {
    hide Cursor, ModelWrite, ModelWrites, FillWrites, SlotsApart, ByteAfter, PairwiseApart, Touches;
    assert Settled(env', regions, k, a) by {
      forall l | k < l < |regions|
        ensures !Touches(env', regions, l, a)
      {
        if Touches(env', regions, l, a) {
          SameTouches(env', env, regions, l, a);
        }
      }
    }
    SameSource(env, env', regions, k);
    var r, c := regions[k], Source(env, regions, k);
    FinalContents(env, regions, k, a, before);
    FinalContents(env', regions, k, a, before);
    var ws, vs := ModelWrites(env, r, k, c, |env.fields|), ModelWrites(env', r, k, c, |env'.fields|);
    ModelWritesApart(env, r, k, c);
    forall w
      ensures w in ws <==> w in vs
    {
      if w in ws {
        SameModelWrites(env, env', r, k, c, w);
      }
      if w in vs {
        SameModelWrites(env', env, r, k, c, w);
      }
    }
    OrderIrrelevant(ws, vs, a, env.data[c + (a - r.addr)]);
  }

  // ---- which fuzz bytes go where ----

  function TotalLen(regions: seq<Region>, k: nat): nat
    requires k <= |regions|
  {
    if k == 0 then 0 else TotalLen(regions, k - 1) + regions[k - 1].len
  }

  lemma {:induction false} CursorIsTotal(env: Env, regions: seq<Region>, k: nat)
    requires k <= |regions| && TotalLen(regions, k) <= |env.data|
    ensures Cursor(env, regions, k) == TotalLen(regions, k)
  {
    if k > 0 {
      CursorIsTotal(env, regions, k - 1);
    }
  }

  /** From one region to the next, whatever came before: the next window starts where this one ends, if the
      region still fits there, and otherwise at the beginning of the fuzz data. */
  lemma {:induction false} NextWindow(env: Env, regions: seq<Region>, k: nat)
    requires k + 1 < |regions|
    ensures var end := Source(env, regions, k) + regions[k].len;
            Source(env, regions, k + 1) == if end + regions[k + 1].len <= |env.data| then end else 0
    ensures Source(env, regions, 0) == 0
  {
  }

  /** As long as the fuzz data lasts, regions get consecutive windows of it; a region that does not fit
      into the rest starts over at the beginning. */
  lemma {:induction false} ConsecutiveWindows(env: Env, regions: seq<Region>, k: nat)
    requires k < |regions| && TotalLen(regions, k) <= |env.data|
    ensures Source(env, regions, k) == if TotalLen(regions, k + 1) <= |env.data| then TotalLen(regions, k) else 0
  {
    hide Cursor;
    CursorIsTotal(env, regions, k);
  }

  /** What is written for a kept field: the byte found in memory at its offset in the fuzz data, then zeros; in
      an oversized region, which has no fuzz data, a random value. */
  lemma {:induction false} KeptBytes(env: Env, r: Region, k: nat, c: nat, j: nat, i: nat)
    requires env.Valid() && j < |env.fields|
    requires env.mode == RandomMode && !env.rolls(k, j, i).useModel && !env.rolls(k, j, i).useHybrid
    ensures var f := env.fields[j];
            var at := c + f.offset + f.structLen * i;
            ModelWrite(env, r, k, c, j, i).bytes ==
            if r.len > |env.data| then Store64(env.rand64(k, j, i))[..f.size]
            else [if at < |env.data| then env.data[at] else env.beyond(at), 0, 0, 0, 0, 0, 0, 0][..f.size]
  {
    hide Store64;
    var at := c + env.fields[j].offset + env.fields[j].structLen * i;
    StoreByte(if at < |env.data| then env.data[at] else env.beyond(at));
  }

  lemma {:induction false} FirstThenZeros(raw: seq<Byte>)
    requires 0 < |raw| <= 8
    ensures [raw[0], 0, 0, 0, 0, 0, 0, 0][..|raw|] == raw <==> forall t :: 0 < t < |raw| ==> raw[t] == 0
  {
    var bytes := [raw[0], 0, 0, 0, 0, 0, 0, 0][..|raw|];
    assert forall t :: 0 < t < |raw| ==> bytes[t] == 0;
    assert bytes[0] == raw[0];
  }

  /**
    * A model that decides to keep the original keeps one byte: `feedData` is given `dma_data[off]`, a
    * single byte, so a wider field is written as that byte and zeros.  The raw bytes of the field survive
    * if and only if those after the first are zero already.
    */
  lemma {:induction false} KeptFieldExactly(env: Env, r: Region, k: nat, c: nat, j: nat, i: nat)
    requires env.Valid() && j < |env.fields| && env.fields[j].size > 0 && r.len <= |env.data|
    requires env.mode == RandomMode && !env.rolls(k, j, i).useModel && !env.rolls(k, j, i).useHybrid
    requires c + FieldOffset(env.fields[j], i) + env.fields[j].size <= |env.data|
    ensures var f, at := env.fields[j], c + FieldOffset(env.fields[j], i);
            ModelWrite(env, r, k, c, j, i).bytes == env.data[at..at + f.size] <==>
            forall t :: at < t < at + f.size ==> env.data[t] == 0
  {
    hide ModelWrite;
    var f, at := env.fields[j], c + FieldOffset(env.fields[j], i);
    KeptBytes(env, r, k, c, j, i);
    var raw := env.data[at..at + f.size];
    FirstThenZeros(raw);
    if t :| at < t < at + f.size && env.data[t] != 0 {
      assert raw[t - at] != 0;
    } else {
      assert forall t :: 0 < t < |raw| ==> raw[t] == env.data[at + t];
    }
  }

  /** Four fuzz bytes for one four-byte field whose model keeps the original. */
  function KeepAll(inp: Input): Env {
    Env([1, 2, 3, 4], [Field(4, 0, inp, 4)], true, RandomMode,
        (k, j, i) => Rolls(false, false, 0), (k, j, i) => 0, a => 0)
  }

  /** The failure occurs: memory ends as 1, 0, 0, 0 although nothing in the fuzz data was to be replaced. */
  lemma {:induction false} KeptFieldLost(inp: Input, a: nat, before: Byte)
    requires a < 4
    ensures KeepAll(inp).Valid()
    ensures ByteAfter(FillWrites(KeepAll(inp), [Region(0, 4)], 1), a, before) == [1, 0, 0, 0][a]
  {
    hide FillWrites, ModelWrite, ByteAfter;
    var env, regions := KeepAll(inp), [Region(0, 4)];
    assert Source(env, regions, 0) == 0;
    KeptBytes(env, regions[0], 0, 0, 0, 0);
    ModelWriteSpan(env, regions[0], 0, 0, 0, 0);
    assert LastSlot(env, regions[0], 0, 0, a, 0, 0);
    FillMeaning(env, regions, 0, a, before);
  }
}
