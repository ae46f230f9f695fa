/** The AFL edge-count map (`AFLMaybeLog`) and its meaning as a histogram of hashed transitions. */
module Coverage {
  import opened Words

  const MAP_SIZE := 65536

  /** One `uint8_t` counter of the map. */
  type Cell = x: nat | x < 256

  /** `c++` on a `uint8_t`. */
  function Bump(c: Cell): Cell {
    if c == 255 then 0 else c + 1
  }

  /** A word that is a cell number. */
  predicate InMap(w: Word) {
    w < 0x1_0000
  }

  /** The map together with `prev_loc`. */
  datatype State = State(cells: seq<Cell>, prev: Word) {
    predicate Valid() {
      |cells| == MAP_SIZE && InMap(prev)
    }
  }

  function Half(a: Word): Word {
    a >> 1
  }

  /** The location hash: `(ip >> 4) ^ (ip << 8)`, masked to the map size. */
  function Hash(ip: Word): Word {
    ((ip >> 4) ^ (ip << 8)) & 0xffff
  }

  function Narrow(w: Word): bv16
    requires InMap(w)
  {
    w as bv16
  }

  function Number(h: bv16): (i: nat)
    ensures i < MAP_SIZE
  {
    h as int
  }

  function CellNumber(w: Word): (i: nat)
    requires InMap(w)
    ensures i < MAP_SIZE
  {
    Number(Narrow(w))
  }

  lemma {:induction false} XorRange(a: Word, b: Word)
    requires InMap(a) && InMap(b)
    ensures InMap(Xor(a, b)) && InMap(Half(a))
  {
  }

  lemma {:induction false} HashRange(ip: Word)
    ensures InMap(Hash(ip)) && InMap(0)
  {
  }

  /** `Hash(ip) ^ prev`, the cell that a transition from `prev` to `ip` bumps. */
  function EdgeIndex(ip: Word, prev: Word): (i: nat)
    requires InMap(prev)
    ensures i < MAP_SIZE
  {
    HashRange(ip);
    XorRange(Hash(ip), prev);
    CellNumber(Xor(Hash(ip), prev))
  }

  /** `prev_loc` after a call for `ip`. */
  function NextPrev(ip: Word): (prev: Word)
    ensures InMap(prev)
  {
    HashRange(ip);
    XorRange(Hash(ip), 0);
    Half(Hash(ip))
  }

  /** The hashed transitions of a whole IP sequence. */
  function Edges(ips: seq<Word>, prev: Word): (es: seq<nat>)
    requires InMap(prev)
    ensures forall k :: 0 <= k < |es| ==> es[k] < MAP_SIZE
  {
    if ips == [] then [] else [EdgeIndex(ips[0], prev)] + Edges(ips[1..], NextPrev(ips[0]))
  }

  /** One call of `AFLMaybeLog` on a live map. */
  function Log(st: State, ip: Word): (st': State)
    requires st.Valid()
    ensures st'.Valid()
  {
    var i := EdgeIndex(ip, st.prev);
    State(st.cells[i := Bump(st.cells[i])], NextPrev(ip))
  }

  function LogAll(st: State, ips: seq<Word>): (st': State)
    requires st.Valid()
    ensures st'.Valid()
    decreases |ips|
  {
    if ips == [] then st else LogAll(Log(st, ips[0]), ips[1..])
  }

  /** The masked hash is always below `afl_inst_rms`, so the early return of `AFLMaybeLog` never fires;
      and the cell index stays inside the map exactly when `prev_loc` does. */
  lemma {:induction false} IndexRange(ip: Word, prev: Word)
    ensures Hash(ip) < 0x1_0000 && Hash(ip) >> 1 < 0x1_0000
    ensures Hash(ip) ^ prev < 0x1_0000 <==> prev < 0x1_0000
  {
    assert prev == Hash(ip) ^ (Hash(ip) ^ prev);
  }

  /** The hash in terms of the address: bits 19..4, with the low byte folded onto the upper half.  Addresses
      that agree in their low 20 bits are the same location. */
  lemma {:induction false} HashBits(ip: Word, ip': Word)
    ensures Hash(ip) == ((ip >> 4) & 0xffff) ^ ((ip & 0xff) << 8)
    ensures ip & 0xfffff == ip' & 0xfffff ==> Hash(ip) == Hash(ip')
  {
    assert (ip >> 4) & 0xffff == ((ip & 0xfffff) >> 4) & 0xffff;
    assert (ip' >> 4) & 0xffff == ((ip' & 0xfffff) >> 4) & 0xffff;
    assert ip & 0xff == (ip & 0xfffff) & 0xff && ip' & 0xff == (ip' & 0xfffff) & 0xff;
    assert Hash(ip) == ((ip >> 4) & 0xffff) ^ ((ip & 0xff) << 8);
    assert Hash(ip') == ((ip' >> 4) & 0xffff) ^ ((ip' & 0xff) << 8);
  }

  lemma {:induction false} XorIs(a: Word, b: Word)
    ensures Xor(a, b) == a ^ b && Half(a) == a >> 1
  {
  }

  /** The bits of an address that make up its location. */
  function LocationBits(ip: Word): Word {
    ((ip >> 4) & 0xffff) ^ ((ip & 0xff) << 8)
  }

  lemma {:induction false} HashIsLocation(ip: Word)
    ensures Hash(ip) == LocationBits(ip) && InMap(LocationBits(ip))
  {
    HashBits(ip, ip);
    HashRange(ip);
  }

  /**
    * The cells bumped for an IP sequence, in terms of address bits: each transition bumps the cell whose number
    * is the location of the new address, xor the location of the one before shifted right by one.
    */
  lemma {:induction false} EdgesAre(ips: seq<Word>, prev: Word, k: nat)
    requires InMap(prev) && k < |ips|
    ensures |Edges(ips, prev)| == |ips|
    ensures var from := if k == 0 then prev else Half(LocationBits(ips[k - 1]));
            && InMap(Xor(LocationBits(ips[k]), from))
            && Edges(ips, prev)[k] == CellNumber(Xor(LocationBits(ips[k]), from))
  {
    hide Hash, LocationBits, CellNumber, InMap, Xor, Half;
    HashIsLocation(ips[0]);
    XorRange(LocationBits(ips[0]), prev);
    if |ips| > 1 {
      EdgesAre(ips[1..], NextPrev(ips[0]), if k > 0 then k - 1 else 0);
    }
  }

  function HalfWord(i: nat): bv16
    requires i < MAP_SIZE
  {
    i as bv16
  }

  function Widen(h: bv16): Word {
    h as bv64
  }

  lemma {:induction false} NumberBack(h: bv16)
    ensures HalfWord(Number(h)) == h
  {
  }

  lemma {:induction false} WidenBack(w: Word)
    requires InMap(w)
    ensures Widen(Narrow(w)) == w
  {
  }

  /** The cell number of a word is its value: widened again it is the word. */
  lemma {:induction false} NumberIsValue(w: Word)
    requires InMap(w)
    ensures Widen(HalfWord(CellNumber(w))) == w
  {
    hide Number, HalfWord, Narrow, Widen;
    NumberBack(Narrow(w));
    WidenBack(w);
  }

  lemma {:induction false} SameCell(v: Word, w: Word)
    requires InMap(v) && InMap(w)
    ensures CellNumber(v) == CellNumber(w) <==> v == w
  {
    hide CellNumber, HalfWord, Widen, InMap;
    NumberIsValue(v);
    NumberIsValue(w);
  }

  lemma {:induction false} HalfOfXor(x: Word, y: Word)
    ensures Half(Xor(x, y)) == Xor(Half(x), Half(y))
  {
  }

  lemma {:induction false} XorRegroups(x: Word, y: Word, p: Word, q: Word)
    ensures Xor(Xor(y, p), Xor(x, q)) == Xor(Xor(x, y), Xor(p, q))
  {
    hide Xor;
    calc {
      Xor(Xor(y, p), Xor(x, q));
      { XorAssoc(Xor(y, p), x, q); }
      Xor(Xor(Xor(y, p), x), q);
      { XorAssoc(Xor(y, p), x, x); XorAssoc(x, y, p); }
      Xor(Xor(Xor(x, y), p), q);
      { XorAssoc(Xor(x, y), p, q); }
      Xor(Xor(x, y), Xor(p, q));
    }
  }

  lemma {:induction false} XorCancels(x: Word, y: Word)
    ensures Xor(y, Half(x)) == Xor(x, Half(y)) ==> Xor(x, y) == Half(Xor(x, y))
  {
    hide Xor, Half;
    HalfOfXor(x, y);
    XorRegroups(x, y, Half(x), Half(y));
    XorZero(Xor(y, Half(x)), Xor(x, Half(y)));
    XorZero(Xor(x, y), Xor(Half(x), Half(y)));
  }

  lemma {:induction false} OwnHalf(z: Word)
    ensures z == Half(z) ==> z == 0
  {
  }

  /** Direction is visible: going from one address to another and back bumps two different cells, unless both
      are the same location. */
  lemma {:induction false} DirectionMatters(a: Word, b: Word)
    ensures EdgeIndex(b, NextPrev(a)) == EdgeIndex(a, NextPrev(b)) <==> Hash(a) == Hash(b)
  {
    hide Hash, Xor, Half, CellNumber, InMap;
    var x, y := Hash(a), Hash(b);
    HashRange(a);
    HashRange(b);
    XorRange(x, 0);
    XorRange(y, 0);
    XorRange(y, Half(x));
    XorRange(x, Half(y));
    SameCell(Xor(y, Half(x)), Xor(x, Half(y)));
    XorCancels(x, y);
    OwnHalf(Xor(x, y));
    XorZero(x, y);
  }

  /** `prev_loc` after a sequence is the shifted location of its last address. */
  lemma {:induction false} LastLocation(st: State, ips: seq<Word>)
    requires st.Valid()
    ensures LogAll(st, ips).prev == if ips == [] then st.prev else Half(LocationBits(ips[|ips| - 1]))
    decreases |ips|
  {
    hide EdgeIndex, Hash, LocationBits, InMap, Half;
    if ips != [] {
      HashIsLocation(ips[0]);
      LastLocation(Log(st, ips[0]), ips[1..]);
    }
  }

  /** Bumps the cells `es` one after the other. */
  function BumpEach(cells: seq<Cell>, es: seq<nat>): (r: seq<Cell>)
    requires forall k :: 0 <= k < |es| ==> es[k] < |cells|
    ensures |r| == |cells|
    decreases |es|
  {
    if es == [] then cells else BumpEach(cells[es[0] := Bump(cells[es[0]])], es[1..])
  }

  lemma {:induction false} BumpCounts(c: Cell, n: nat)
    ensures (Bump(c) + n) % 256 == (c + (n + 1)) % 256
  {
    if c == 255 {
      assert (255 + (n + 1)) % 256 == n % 256;
    }
  }

  lemma {:induction false} CountFirst(es: seq<nat>, i: nat)
    requires es != []
    ensures multiset(es)[i] == multiset(es[1..])[i] + if es[0] == i then 1 else 0
  {
    assert es == [es[0]] + es[1..];
    assert multiset(es) == multiset{es[0]} + multiset(es[1..]);
  }

  lemma {:induction false} BumpEachCounts(cells: seq<Cell>, es: seq<nat>, i: nat)
    requires (forall k :: 0 <= k < |es| ==> es[k] < |cells|) && i < |cells|
    ensures BumpEach(cells, es)[i] == (cells[i] + multiset(es)[i]) % 256
    decreases |es|
  {
    hide Bump;
    if es != [] {
      BumpEachCounts(cells[es[0] := Bump(cells[es[0]])], es[1..], i);
      CountFirst(es, i);
      BumpCounts(cells[i], multiset(es[1..])[i]);
    }
  }

  lemma {:induction false} LogAllBumps(st: State, ips: seq<Word>)
    requires st.Valid()
    ensures LogAll(st, ips).cells == BumpEach(st.cells, Edges(ips, st.prev))
    decreases |ips|
  {
    hide EdgeIndex, NextPrev;
    if ips != [] {
      LogAllBumps(Log(st, ips[0]), ips[1..]);
    }
  }

  /** Every cell ends at its start value plus the number of transitions hashed to it, modulo 256. */
  lemma {:induction false} MapIsHistogram(st: State, ips: seq<Word>, i: nat)
    requires st.Valid() && i < MAP_SIZE
    ensures LogAll(st, ips).cells[i] == (st.cells[i] + multiset(Edges(ips, st.prev))[i]) % 256
  {
    hide EdgeIndex, NextPrev, LogAll, BumpEach, Edges;
    LogAllBumps(st, ips);
    BumpEachCounts(st.cells, Edges(ips, st.prev), i);
  }

  lemma {:induction false} LogAllConcat(st: State, a: seq<Word>, b: seq<Word>)
    requires st.Valid()
    ensures LogAll(st, a + b) == LogAll(LogAll(st, a), b)
    decreases |a|
  {
    if a == [] {
      assert a + b == b;
    } else {
      assert (a + b)[1..] == a[1..] + b;
      LogAllConcat(Log(st, a[0]), a[1..], b);
    }
  }

  lemma {:induction false} LogOne(st: State, ip: Word)
    requires st.Valid()
    ensures LogAll(st, [ip]) == Log(st, ip)
  {
    hide Log;
    assert [ip][1..] == [];
  }

  /** What an AFL client holds: no map (AFL is not attached), or a live one. */
  datatype Client = Detached(prev: Word) | Live(st: State) {
    predicate Valid() {
      Live? ==> st.Valid()
    }
  }

  /** The effect of logging `ips` one after the other. */
  function Feed(c: Client, ips: seq<Word>): (c': Client)
    requires c.Valid()
    ensures c'.Valid()
  {
    if c.Live? then Live(LogAll(c.st, ips)) else c
  }

  lemma {:induction false} FeedConcat(c: Client, a: seq<Word>, b: seq<Word>)
    requires c.Valid()
    ensures Feed(c, []) == c
    ensures Feed(c, a + b) == Feed(Feed(c, a), b)
  {
    if c.Live? {
      LogAllConcat(c.st, a, b);
    }
  }

  /** `area[idx]++`. */
  method BumpCell(area: array<Cell>, idx: nat)
    requires idx < area.Length
    modifies area
    ensures area[..] == old(area[..][idx := Bump(area[idx])])
  {
    area[idx] := Bump(area[idx]);
  }

  /** `AFLClient`, as far as coverage logging goes. */
  class AflClient {
    /** `afl_area_ptr`: null when AFL is not attached. */
    var area: array?<Cell>
    var prevLoc: Word
    const instRms: Word := 0x1_0000

    ghost predicate Valid()
      reads this
    {
      InMap(prevLoc) && (area != null ==> area.Length == MAP_SIZE)
    }

    ghost function View(): (c: Client)
      requires Valid()
      reads this, area
      ensures c.Valid()
    {
      if area == null then Detached(prevLoc) else Live(State(area[..], prevLoc))
    }

    /** `AFLMaybeLog`. */
    method MaybeLog(ip: Word)
      requires Valid()
      modifies this`prevLoc, area
      ensures Valid() && View() == Feed(old(View()), [ip])
      ensures prevLoc == if area == null then old(prevLoc) else Half(LocationBits(ip))
    {
      hide Hash, EdgeIndex, LocationBits, InMap, Half;
      HashIsLocation(ip);
      if area == null {
        return;
      }
      IndexRange(ip, prevLoc);
      var curLoc := Hash(ip);
      if curLoc >= instRms {
        return;
      }
      var idx := EdgeIndex(ip, prevLoc);
      LogOne(View().st, ip);
      BumpCell(area, idx);
      prevLoc := NextPrev(ip);
    }

    /** `handle_type_cov`: logs the address that `ap_log_pc` put at the start of the message data. */
    method HandleCov(data: seq<Byte>)
      requires Valid() && |data| >= 8
      modifies this`prevLoc, area
      ensures Valid() && View() == Feed(old(View()), [Load64(data)])
      ensures forall rip :: Store64(rip) <= data ==> View() == Feed(old(View()), [rip])
    {
      hide Feed;
      MaybeLog(Load64(data));
      forall rip | Store64(rip) <= data
        ensures rip == Load64(data)
      {
        assert data == Store64(rip) + data[8..];
        LoadStore64(rip, data[8..]);
      }
    }
  }
}
