/** Reading records that may wrap around a ring (`PerfAuxBuffer`, `get_event`). */
module AuxRing {
  import opened Prelude
  import opened Words

  /** The bytes at positions `offset .. offset + size` of an unbounded stream kept in a ring. */
  predicate IsWindow(s: seq<Byte>, ring: seq<Byte>, offset: nat) {
    |ring| > 0 && forall k :: 0 <= k < |s| ==> s[k] == ring[(offset + k) % |ring|]
  }

  /** Index of the byte `k` behind ring index `p`, for a ring of `n` bytes passed at most once. */
  function Place(p: nat, k: nat, n: nat): nat
    requires p < n && p + k < 2 * n
  {
    if p + k < n then p + k else p + k - n
  }

  lemma {:induction false} WrapIndex(offset: nat, k: nat, n: nat)
    requires n > 0 && offset % n + k < 2 * n
    ensures (offset + k) % n == Place(offset % n, k, n)
  {
    var q, r := offset / n, offset % n;
    assert offset == q * n + r;
    if r + k < n {
      DivModUnique(offset + k, n, q, r + k);
    } else {
      assert offset + k == (q + 1) * n + (r + k - n);
      DivModUnique(offset + k, n, q + 1, r + k - n);
    }
  }

  lemma {:induction false} WindowFromPlaces(s: seq<Byte>, ring: seq<Byte>, offset: nat)
    requires |ring| > 0 && offset % |ring| + |s| <= 2 * |ring|
    requires forall k :: 0 <= k < |s| ==> s[k] == ring[Place(offset % |ring|, k, |ring|)]
    ensures IsWindow(s, ring, offset)
  {
    forall k | 0 <= k < |s|
      ensures s[k] == ring[(offset + k) % |ring|]
    {
      WrapIndex(offset, k, |ring|);
    }
  }

  /** `memcpy(&dst[at], &src[from], n)`. */
  method Copy(dst: array<Byte>, at: nat, src: array<Byte>, from: nat, n: nat)
    requires at + n <= dst.Length && from + n <= src.Length && dst != src
    modifies dst
    ensures forall k :: at <= k < at + n ==> dst[k] == src[k - at + from]
    ensures forall k :: 0 <= k < dst.Length && !(at <= k < at + n) ==> dst[k] == old(dst[k])
  {
    for i := 0 to n
      invariant forall k :: at <= k < at + i ==> dst[k] == src[k - at + from]
      invariant forall k :: 0 <= k < dst.Length && !(at <= k < at + i) ==> dst[k] == old(dst[k])
    {
      dst[at + i] := src[from + i];
    }
  }

  /** The two copies that straighten out a wrapped record of `size` bytes that starts at index `p`. */
  method CopyWrapped(buf: array<Byte>, ring: array<Byte>, p: nat, size: nat)
    requires p < ring.Length <= p + size <= 2 * ring.Length && size <= buf.Length && buf != ring
    modifies buf
    ensures forall k :: 0 <= k < size ==> buf[k] == ring[Place(p, k, ring.Length)]
  {
    var size1 := ring.Length - p;
    var size2 := size - size1;
    Copy(buf, 0, ring, p, size1);
    Copy(buf, size1, ring, 0, size2);
  }

  /** The `PerfAuxBuffer` constructor.  The source does not check that the two copies suffice. */
  method Linearise(ring: array<Byte>, offset: nat, size: nat) returns (buf: array<Byte>)
    requires ring.Length > 0 && offset % ring.Length + size <= 2 * ring.Length
    ensures fresh(buf) && buf.Length == size
    ensures IsWindow(buf[..], ring[..], offset)
  {
    buf := new Byte[size];
    var p := offset % ring.Length;
    if p + size < ring.Length {
      Copy(buf, 0, ring, p, size);
    } else {
      CopyWrapped(buf, ring, p, size);
    }
    WindowFromPlaces(buf[..], ring[..], offset);
  }

  /** `get_event` for a record type of `size` bytes; `scratch` is the static 256-byte buffer. */
  method GetEvent(ring: array<Byte>, tail: nat, size: nat, scratch: array<Byte>) returns (event: seq<Byte>)
    requires 0 < size <= 256 == scratch.Length && size <= ring.Length && ring != scratch
    modifies scratch
    ensures |event| == size && IsWindow(event, ring[..], tail)
  {
    var p := tail % ring.Length;
    if p + size < ring.Length {
      event := ring[p..p + size];
    } else {
      CopyWrapped(scratch, ring, p, size);
      event := scratch[..size];
    }
    WindowFromPlaces(event, ring[..], tail);
  }
}
