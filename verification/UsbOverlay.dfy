/** Overlaying model values on USB buffers (`Stage2HWModel::feedFuzzUSBData`). */
module UsbOverlay {
  import opened Words
  import opened Dictionary
  import opened Overlay

  /** A constrained field of a USB buffer: its offset, its input and `n_bytes`. */
  datatype Field = Field(offset: nat, input: Input, size: nat)

  /** `fields` in iteration order; `rolls` are the outcomes of `rand()` by field, `beyond` the bytes behind
      the fuzz data. */
  datatype Env = Env(afl: seq<Byte>, fields: seq<Field>, mode: Mode, rolls: nat -> Rolls, beyond: nat -> Byte) {
    /** A field without dictionary values is one for which `feedData` does not pick one. */
    predicate Valid() {
      forall j :: 0 <= j < |fields| ==> fields[j].size <= 8 && (fields[j].input.dict == [] ==> !Picks(mode, rolls(j)))
    }

    function DataAt(i: nat): Byte {
      if i < |afl| then afl[i] else beyond(i)
    }
  }

  /** Bytes of a field that lie inside a buffer of `size` bytes. */
  function FieldSize(f: Field, size: nat): nat
    requires f.offset < size
  {
    if f.offset + f.size > size then size - f.offset else f.size
  }

  /** Byte `i` of the word into which `n` fuzz bytes from `at` on are copied; it starts as 0. */
  function PaddedAt(env: Env, at: nat, n: nat, i: nat): Byte {
    if i < n then env.DataAt(at + i) else 0
  }

  function Padded(env: Env, at: nat, n: nat): seq<Byte> {
    [PaddedAt(env, at, n, 0), PaddedAt(env, at, n, 1), PaddedAt(env, at, n, 2), PaddedAt(env, at, n, 3),
     PaddedAt(env, at, n, 4), PaddedAt(env, at, n, 5), PaddedAt(env, at, n, 6), PaddedAt(env, at, n, 7)]
  }

  /** The original value of a field, taken from the fuzz data unless it starts behind them. */
  function FuzzWord(env: Env, f: Field, size: nat): Word
    requires f.offset < size
  {
    if f.offset < |env.afl| then Load64(Padded(env, f.offset, FieldSize(f, size))) else 0
  }

  function FieldWrite(env: Env, size: nat, j: nat): Write
    requires env.Valid() && j < |env.fields| && env.fields[j].offset < size
  {
    var f := env.fields[j];
    var value := FeedData(f.input, env.mode, FuzzWord(env, f, size), env.rolls(j));
    Write(f.offset, Store64(value)[..FieldSize(f, size)])
  }

  /** The overlay writes of the first `m` fields. */
  function FieldWrites(env: Env, size: nat, m: nat): seq<Write>
    requires env.Valid() && m <= |env.fields|
  {
    if m == 0 then []
    else FieldWrites(env, size, m - 1)
         + if env.fields[m - 1].offset >= size then [] else [FieldWrite(env, size, m - 1)]
  }

  lemma {:induction false} ByteAfterSnoc(ws: seq<Write>, w: Write, a: nat, before: Byte)
    ensures ByteAfter(ws + [w], a, before) == if w.Covers(a) then w.ByteAt(a) else ByteAfter(ws, a, before)
  {
    assert (ws + [w])[..|ws|] == ws;
  }

  lemma {:induction false} FieldWriteSpan(env: Env, size: nat, j: nat)
    requires env.Valid() && j < |env.fields| && env.fields[j].offset < size
    ensures var w, f := FieldWrite(env, size, j), env.fields[j];
            w.at == f.offset && |w.bytes| == FieldSize(f, size) && w.at + |w.bytes| <= size
  {
    hide FeedData, Load64;
  }

  lemma {:induction false} FieldWriteFrom(env: Env, size: nat, m: nat, w: Write)
    requires env.Valid() && m <= |env.fields|
    ensures w in FieldWrites(env, size, m) <==>
            exists j :: 0 <= j < m && env.fields[j].offset < size && w == FieldWrite(env, size, j)
  {
    hide FieldWrite;
    if m > 0 {
      FieldWriteFrom(env, size, m - 1, w);
    }
  }

  /** `memcpy(&dest[at], bytes, |bytes|)`. */
  method Store(dest: array<Byte>, at: nat, bytes: seq<Byte>)
    requires at + |bytes| <= dest.Length
    modifies dest
    ensures forall k :: 0 <= k < dest.Length ==>
              dest[k] == if at <= k < at + |bytes| then bytes[k - at] else old(dest[k])
  {
    for i := 0 to |bytes|
      invariant forall k :: 0 <= k < dest.Length ==>
                  dest[k] == if at <= k < at + i then bytes[k - at] else old(dest[k])
    {
      dest[at + i] := bytes[i];
    }
  }

  predicate InField(f: Field, a: nat) {
    f.offset <= a < f.offset + f.size
  }

  /** Bytes outside the buffer or outside every field are not overlaid, in any mode. */
  lemma {:induction false} OutsideFieldsUntouched(env: Env, size: nat, a: nat, before: Byte)
    requires env.Valid() && (size <= a || forall j :: 0 <= j < |env.fields| ==> !InField(env.fields[j], a))
    ensures ByteAfter(FieldWrites(env, size, |env.fields|), a, before) == before
  {
    hide FieldWrite, FieldWrites, ByteAfter;
    forall w | w in FieldWrites(env, size, |env.fields|)
      ensures !w.Covers(a)
    {
      FieldWriteFrom(env, size, |env.fields|, w);
      var j :| 0 <= j < |env.fields| && env.fields[j].offset < size && w == FieldWrite(env, size, j);
      FieldWriteSpan(env, size, j);
    }
    ByteAfterUntouched(FieldWrites(env, size, |env.fields|), a, before);
  }

  /**
    * `feedFuzzUSBData`: the buffer holds the fuzz data as far as they go, overlaid by the field writes; a byte
    * in no field is the fuzz byte, or what was there where the fuzz data have ended; nothing at or behind
    * `size` is touched.
    */
  method FeedFuzzUsbData(dest: array<Byte>, size: nat, env: Env)
    requires env.Valid() && size <= dest.Length
    modifies dest
    ensures forall k :: 0 <= k < dest.Length ==>
              dest[k] == ByteAfter(FieldWrites(env, size, |env.fields|), k,
                                   if k < size && k < |env.afl| then env.afl[k] else old(dest[k]))
    ensures forall k :: 0 <= k < size && (forall j :: 0 <= j < |env.fields| ==> !InField(env.fields[j], k)) ==>
              dest[k] == if k < |env.afl| then env.afl[k] else old(dest[k])
    ensures forall k :: size <= k < dest.Length ==> dest[k] == old(dest[k])
  {
    hide FieldWrite, ByteAfter;
    var copyLen := if size < |env.afl| then size else |env.afl|;
    Store(dest, 0, env.afl[..copyLen]);
    ghost var start := dest[..];
    forall k | 0 <= k < dest.Length
      ensures dest[k] == ByteAfter(FieldWrites(env, size, 0), k, start[k])
    {
      ByteAfterUntouched([], k, start[k]);
    }
    for j := 0 to |env.fields|
      invariant forall k :: 0 <= k < dest.Length ==>
                  dest[k] == ByteAfter(FieldWrites(env, size, j), k, start[k])
    {
      if env.fields[j].offset >= size {
        assert FieldWrites(env, size, j + 1) == FieldWrites(env, size, j);
        continue;
      }
      var w := FieldWrite(env, size, j);
      FieldWriteSpan(env, size, j);
      Store(dest, w.at, w.bytes);
      ghost var ws := FieldWrites(env, size, j);
      assert FieldWrites(env, size, j + 1) == ws + [w];
      forall k | 0 <= k < dest.Length
        ensures dest[k] == ByteAfter(ws + [w], k, start[k])
      {
        ByteAfterSnoc(ws, w, k, start[k]);
      }
    }
    forall k | 0 <= k < dest.Length && (size <= k || forall j :: 0 <= j < |env.fields| ==> !InField(env.fields[j], k))
      ensures dest[k] == start[k]
    {
      OutsideFieldsUntouched(env, size, k, start[k]);
    }
  }

  predicate FieldsApart(fields: seq<Field>) {
    forall j, l :: 0 <= j < l < |fields| ==>
      fields[j].offset + fields[j].size <= fields[l].offset || fields[l].offset + fields[l].size <= fields[j].offset
  }

  lemma {:induction false} WritesApart(env: Env, size: nat)
    requires env.Valid() && FieldsApart(env.fields)
    ensures PairwiseApart(FieldWrites(env, size, |env.fields|))
  {
    hide FieldWrite, FieldWrites, Picks;
    var ws := FieldWrites(env, size, |env.fields|);
    forall w, v | w in ws && v in ws && w != v
      ensures Apart(w, v)
    {
      FieldWriteFrom(env, size, |env.fields|, w);
      FieldWriteFrom(env, size, |env.fields|, v);
      var j :| 0 <= j < |env.fields| && env.fields[j].offset < size && w == FieldWrite(env, size, j);
      var l :| 0 <= l < |env.fields| && env.fields[l].offset < size && v == FieldWrite(env, size, l);
      assert j != l;
      FieldWriteSpan(env, size, j);
      FieldWriteSpan(env, size, l);
    }
  }

  /** Every byte of a field that lies in the buffer is the corresponding byte of the value chosen for it. */
  lemma {:induction false} FieldBytesChosen(env: Env, size: nat, j: nat, a: nat, before: Byte)
    requires env.Valid() && FieldsApart(env.fields) && j < |env.fields| && a < size && InField(env.fields[j], a)
    ensures FieldWrite(env, size, j).Covers(a)
    ensures ByteAfter(FieldWrites(env, size, |env.fields|), a, before) == FieldWrite(env, size, j).ByteAt(a)
  {
    hide FieldWrite, FieldWrites, ByteAfter, PairwiseApart, FieldsApart;
    var w := FieldWrite(env, size, j);
    FieldWriteSpan(env, size, j);
    WritesApart(env, size);
    FieldWriteFrom(env, size, |env.fields|, w);
    ByteAfterCovered(FieldWrites(env, size, |env.fields|), a, before, w);
  }

  lemma {:induction false} SameDictWrite(env: Env, env': Env, size: nat, j: nat, l: nat)
    requires env.Valid() && env'.Valid() && j < |env.fields| && l < |env'.fields| && env.fields[j] == env'.fields[l]
    requires env.mode == env'.mode == DictMode && env.afl == env'.afl && env.beyond == env'.beyond
    requires env.fields[j].offset < size
    ensures FieldWrite(env, size, j) == FieldWrite(env', size, l)
  {
    hide Store64, Load64;
    var n := FieldSize(env.fields[j], size);
    assert Padded(env, env.fields[j].offset, n) == Padded(env', env.fields[j].offset, n);
  }

  lemma {:induction false} SameWrites(env: Env, env': Env, size: nat, w: Write)
    requires env.Valid() && env'.Valid() && (forall f :: f in env.fields ==> f in env'.fields)
    requires env.mode == env'.mode == DictMode && env.afl == env'.afl && env.beyond == env'.beyond
    requires w in FieldWrites(env, size, |env.fields|)
    ensures w in FieldWrites(env', size, |env'.fields|)
  {
    hide FieldWrites, FieldWrite;
    FieldWriteFrom(env, size, |env.fields|, w);
    FieldWriteFrom(env', size, |env'.fields|, w);
    var j :| 0 <= j < |env.fields| && env.fields[j].offset < size && w == FieldWrite(env, size, j);
    assert env.fields[j] in env'.fields;
    var l :| 0 <= l < |env'.fields| && env'.fields[l] == env.fields[j];
    SameDictWrite(env, env', size, j, l);
  }

  /** In dictionary mode, with disjoint fields, the result does not depend on the iteration order. */
  lemma {:induction false} AnyOrder(env: Env, env': Env, size: nat, a: nat, before: Byte)
    requires env.Valid() && env'.Valid() && FieldsApart(env.fields) && forall f :: f in env.fields <==> f in env'.fields
    requires env.mode == env'.mode == DictMode && env.afl == env'.afl && env.beyond == env'.beyond
    ensures ByteAfter(FieldWrites(env, size, |env.fields|), a, before) ==
            ByteAfter(FieldWrites(env', size, |env'.fields|), a, before)
  {
    hide FieldWrite, FieldWrites, ByteAfter, PairwiseApart, FieldsApart;
    var ws, vs := FieldWrites(env, size, |env.fields|), FieldWrites(env', size, |env'.fields|);
    WritesApart(env, size);
    forall w
      ensures w in ws <==> w in vs
    {
      if w in ws {
        SameWrites(env, env', size, w);
      }
      if w in vs {
        SameWrites(env', env, size, w);
      }
    }
    OrderIrrelevant(ws, vs, a, before);
  }

  /** The part of a field inside the buffer straddles the end of the fuzz data. */
  predicate Overreads(f: Field, size: nat, aflLen: nat) {
    f.offset < size && f.offset < aflLen < f.offset + FieldSize(f, size)
  }

  function SetByte(bytes: nat -> Byte, x: nat, v: Byte): nat -> Byte {
    (i: nat) => if i == x then v else bytes(i)
  }

  /** The byte at `x`, behind the fuzz data, is read for a field: the field's original depends on it. */
  ghost predicate ReadsBehind(env: Env, f: Field, size: nat, x: nat)
    requires f.offset < size
  {
    x >= |env.afl| && exists v :: FuzzWord(env.(beyond := SetByte(env.beyond, x, v)), f, size) != FuzzWord(env, f, size)
  }

  /** The original of a field is the same for two memories that agree on the bytes read behind the data. */
  lemma {:induction false} SameFuzzWord(env: Env, beyond: nat -> Byte, f: Field, size: nat)
    requires f.offset < size
    requires f.offset < |env.afl| ==>
               forall i :: |env.afl| <= i < f.offset + FieldSize(f, size) ==> beyond(i) == env.beyond(i)
    ensures FuzzWord(env.(beyond := beyond), f, size) == FuzzWord(env, f, size)
  {
    hide Load64;
    var n := FieldSize(f, size);
    if f.offset < |env.afl| {
      assert Padded(env, f.offset, n) == Padded(env.(beyond := beyond), f.offset, n);
    }
  }

  lemma {:induction false} PaddedIndex(env: Env, at: nat, n: nat, i: nat)
    requires i < 8
    ensures |Padded(env, at, n)| == 8 && Padded(env, at, n)[i] == PaddedAt(env, at, n, i)
  {
  }

  /** The bytes read behind the fuzz data are exactly those of a field that starts inside them. */
  lemma {:induction false} ReadBehindExactly(env: Env, f: Field, size: nat, x: nat)
    requires f.size <= 8 && f.offset < size && x >= |env.afl|
    ensures ReadsBehind(env, f, size, x) <==> f.offset < |env.afl| && x < f.offset + FieldSize(f, size)
  {
    hide Load64, Store64, Padded;
    var n := FieldSize(f, size);
    if f.offset < |env.afl| && x < f.offset + n {
      var v: Byte := if env.beyond(x) == 0 then 1 else 0;
      var env' := env.(beyond := SetByte(env.beyond, x, v));
      var s, s' := Padded(env, f.offset, n), Padded(env', f.offset, n);
      PaddedIndex(env, f.offset, n, x - f.offset);
      PaddedIndex(env', f.offset, n, x - f.offset);
      assert s[x - f.offset] != s'[x - f.offset];
      StoreLoad64(s);
      StoreLoad64(s');
      assert FuzzWord(env', f, size) != FuzzWord(env, f, size);
    } else {
      forall v
        ensures FuzzWord(env.(beyond := SetByte(env.beyond, x, v)), f, size) == FuzzWord(env, f, size)
      {
        SameFuzzWord(env, SetByte(env.beyond, x, v), f, size);
      }
    }
  }

  lemma {:induction false} BehindOnly(env: Env, f: Field, size: nat, x: nat)
    requires f.offset < size && ReadsBehind(env, f, size, x)
    ensures x >= |env.afl|
  {
  }

  /** Some byte behind the fuzz data is read for a field if and only if the field straddles their end. */
  lemma {:induction false} OverreadsExactly(env: Env, f: Field, size: nat)
    requires f.size <= 8 && f.offset < size
    ensures (exists x :: ReadsBehind(env, f, size, x)) <==> Overreads(f, size, |env.afl|)
  {
    hide ReadsBehind;
    forall x: nat | x >= |env.afl|
      ensures ReadsBehind(env, f, size, x) <==> f.offset < |env.afl| && x < f.offset + FieldSize(f, size)
    {
      ReadBehindExactly(env, f, size, x);
    }
    if Overreads(f, size, |env.afl|) {
      assert ReadsBehind(env, f, size, |env.afl|);
    }
    if x :| ReadsBehind(env, f, size, x) {
      BehindOnly(env, f, size, x);
    }
  }

  /** If no field straddles the end of the fuzz data, what lies behind it has no influence. */
  lemma {:induction false} BeyondIrrelevant(env: Env, beyond: nat -> Byte, size: nat, m: nat)
    requires env.Valid() && m <= |env.fields|
    requires forall j :: 0 <= j < |env.fields| ==> !Overreads(env.fields[j], size, |env.afl|)
    ensures env.(beyond := beyond).Valid()
    ensures FieldWrites(env, size, m) == FieldWrites(env.(beyond := beyond), size, m)
  {
    hide Store64, FuzzWord, FeedData;
    if m > 0 {
      BeyondIrrelevant(env, beyond, size, m - 1);
      var f := env.fields[m - 1];
      if f.offset < size {
        SameFuzzWord(env, beyond, f, size);
      }
    }
  }

  lemma {:induction false} ZeroBytes()
    ensures Store64(0) == [0, 0, 0, 0, 0, 0, 0, 0]
  {
  }

  /** The original handed to the model, byte for byte: the bytes of the field that lie in the buffer, and zeros;
      all zeros for a field that starts behind the fuzz data. */
  lemma {:induction false} OriginalBytes(env: Env, f: Field, size: nat, i: nat)
    requires f.offset < size && i < 8
    ensures Store64(FuzzWord(env, f, size))[i] ==
            if f.offset >= |env.afl| || i >= f.size || f.offset + i >= size then 0
            else if f.offset + i < |env.afl| then env.afl[f.offset + i] else env.beyond(f.offset + i)
  {
    hide Store64, Load64, Padded;
    var n := FieldSize(f, size);
    PaddedIndex(env, f.offset, n, i);
    StoreLoad64(Padded(env, f.offset, n));
    ZeroBytes();
  }

  /** What a model that decides to keep the original writes: the bytes from the field's offset on as they are
      found in memory, or zeros for a field that starts behind the fuzz data. */
  lemma {:induction false} KeptFieldBytes(env: Env, size: nat, j: nat, a: nat)
    requires env.Valid() && j < |env.fields| && a < size && InField(env.fields[j], a)
    requires env.mode == RandomMode && !env.rolls(j).useModel && !env.rolls(j).useHybrid
    ensures FieldWrite(env, size, j).Covers(a)
    ensures FieldWrite(env, size, j).ByteAt(a) ==
            if env.fields[j].offset >= |env.afl| then 0
            else if a < |env.afl| then env.afl[a] else env.beyond(a)
  {
    hide Store64, FuzzWord;
    OriginalBytes(env, env.fields[j], size, a - env.fields[j].offset);
  }

  /** A model that decides to keep the original leaves the field's fuzz bytes as they are. */
  lemma {:induction false} KeptFieldUnchanged(env: Env, size: nat, j: nat, a: nat)
    requires env.Valid() && j < |env.fields| && a < size && InField(env.fields[j], a)
    requires env.mode == RandomMode && !env.rolls(j).useModel && !env.rolls(j).useHybrid
    requires env.fields[j].offset + FieldSize(env.fields[j], size) <= |env.afl|
    ensures FieldWrite(env, size, j).Covers(a) && FieldWrite(env, size, j).ByteAt(a) == env.afl[a]
  {
    hide FieldWrite;
    KeptFieldBytes(env, size, j, a);
  }
}
