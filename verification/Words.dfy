/** Machine words as the sources use them: bytes, 64-bit words, little-endian loads and stores. */
module Words {
  type Byte = bv8
  type Word = bv64

  /** One 16-bit lane of a word; `at` is the lane's lowest bit. */
  function Lane(v: Word, at: bv64): bv16
    requires at <= 48
  {
    ((v >> at) & 0xffff) as bv16
  }

  /** `*(uint16_t *)p` on a little-endian machine. */
  function Load16(a: Byte, b: Byte): bv16 {
    (a as bv16) | ((b as bv16) << 8)
  }

  function LowByte(h: bv16): Byte {
    (h & 0xff) as bv8
  }

  function HighByte(h: bv16): Byte {
    (h >> 8) as bv8
  }

  function FromLanes(l0: bv16, l1: bv16, l2: bv16, l3: bv16): Word {
    (l0 as bv64) | ((l1 as bv64) << 16) | ((l2 as bv64) << 32) | ((l3 as bv64) << 48)
  }

  /** The eight bytes of a word in memory order. */
  function Store64(v: Word): (s: seq<Byte>)
    ensures |s| == 8
  {
    [LowByte(Lane(v, 0)), HighByte(Lane(v, 0)), LowByte(Lane(v, 16)), HighByte(Lane(v, 16)),
     LowByte(Lane(v, 32)), HighByte(Lane(v, 32)), LowByte(Lane(v, 48)), HighByte(Lane(v, 48))]
  }

  function Load64(s: seq<Byte>): Word
    requires |s| >= 8
  {
    FromLanes(Load16(s[0], s[1]), Load16(s[2], s[3]), Load16(s[4], s[5]), Load16(s[6], s[7]))
  }

  /** The bytes of a word in memory, lowest first. */
  lemma {:induction false} LittleEndian(v: Word)
    ensures Store64(v)[0] == (v & 0xff) as bv8 && Store64(v)[1] == ((v >> 8) & 0xff) as bv8
    ensures Store64(v)[2] == ((v >> 16) & 0xff) as bv8 && Store64(v)[3] == ((v >> 24) & 0xff) as bv8
    ensures Store64(v)[4] == ((v >> 32) & 0xff) as bv8 && Store64(v)[5] == ((v >> 40) & 0xff) as bv8
    ensures Store64(v)[6] == ((v >> 48) & 0xff) as bv8 && Store64(v)[7] == ((v >> 56) & 0xff) as bv8
  {
  }

  lemma {:induction false} LoadStore16(h: bv16)
    ensures Load16(LowByte(h), HighByte(h)) == h
  {
  }

  lemma {:induction false} SameLanes(v: Word, w: Word)
    requires Lane(v, 0) == Lane(w, 0) && Lane(v, 16) == Lane(w, 16)
    requires Lane(v, 32) == Lane(w, 32) && Lane(v, 48) == Lane(w, 48)
    ensures v == w
  {
  }

  lemma {:induction false} LanesOfWord(l0: bv16, l1: bv16, l2: bv16, l3: bv16)
    ensures Lane(FromLanes(l0, l1, l2, l3), 0) == l0
    ensures Lane(FromLanes(l0, l1, l2, l3), 16) == l1
    ensures Lane(FromLanes(l0, l1, l2, l3), 32) == l2
    ensures Lane(FromLanes(l0, l1, l2, l3), 48) == l3
  {
  }

  /** A word survives being stored to and loaded from memory, whatever follows it. */
  lemma {:induction false} LoadStore64(v: Word, rest: seq<Byte>)
    ensures Load64(Store64(v) + rest) == v
  {
    var s := Store64(v) + rest;
    LoadStore16(Lane(v, 0));
    LoadStore16(Lane(v, 16));
    LoadStore16(Lane(v, 32));
    LoadStore16(Lane(v, 48));
    assert Load64(s) == FromLanes(Lane(v, 0), Lane(v, 16), Lane(v, 32), Lane(v, 48));
    LanesOfWord(Lane(v, 0), Lane(v, 16), Lane(v, 32), Lane(v, 48));
    SameLanes(Load64(s), v);
  }

  lemma {:induction false} StoreLoad16(a: Byte, b: Byte)
    ensures LowByte(Load16(a, b)) == a && HighByte(Load16(a, b)) == b
  {
  }

  /** Eight bytes survive being loaded into a word and stored again. */
  lemma {:induction false} StoreLoad64(s: seq<Byte>)
    requires |s| == 8
    ensures Store64(Load64(s)) == s
  {
    hide LowByte, HighByte, Load16, FromLanes, Lane;
    LanesOfWord(Load16(s[0], s[1]), Load16(s[2], s[3]), Load16(s[4], s[5]), Load16(s[6], s[7]));
    StoreLoad16(s[0], s[1]);
    StoreLoad16(s[2], s[3]);
    StoreLoad16(s[4], s[5]);
    StoreLoad16(s[6], s[7]);
  }

  /** A zero-extended byte in memory order. */
  lemma {:induction false} StoreByte(b: Byte)
    ensures Store64(b as Word) == [b, 0, 0, 0, 0, 0, 0, 0]
  {
  }

  function Xor(a: Word, b: Word): Word {
    a ^ b
  }

  lemma {:induction false} XorAssoc(x: Word, y: Word, z: Word)
    ensures Xor(Xor(x, y), z) == Xor(x, Xor(y, z)) && Xor(x, y) == Xor(y, x)
  {
  }

  lemma {:induction false} XorUnits(x: Word)
    ensures Xor(x, x) == 0 && Xor(x, 0) == x && Xor(0, x) == x
  {
  }

  lemma {:induction false} XorZero(x: Word, y: Word)
    ensures Xor(x, y) == 0 <==> x == y
  {
    hide Xor;
    XorUnits(x);
    XorAssoc(x, x, y);
    XorUnits(y);
    XorAssoc(0, y, y);
  }
}
