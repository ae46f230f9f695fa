/** Memory as its initial contents overlaid by a sequence of writes, the last one winning. */
module Overlay {
  import opened Words

  datatype Write = Write(at: nat, bytes: seq<Byte>) {
    predicate Covers(a: nat) {
      at <= a < at + |bytes|
    }

    function ByteAt(a: nat): Byte
      requires Covers(a)
    {
      bytes[a - at]
    }
  }

  /** The byte at address `a` after the writes, if it was `before` beforehand. */
  function ByteAfter(ws: seq<Write>, a: nat, before: Byte): Byte {
    if ws == [] then before
    else
      var w := ws[|ws| - 1];
      if w.Covers(a) then w.ByteAt(a) else ByteAfter(ws[..|ws| - 1], a, before)
  }

  predicate Apart(w: Write, v: Write) {
    w.at + |w.bytes| <= v.at || v.at + |v.bytes| <= w.at
  }

  /** Different writes touch different bytes. */
  predicate PairwiseApart(ws: seq<Write>) {
    forall w, v :: w in ws && v in ws && w != v ==> Apart(w, v)
  }

  lemma {:induction false} ByteAfterConcat(ws: seq<Write>, vs: seq<Write>, a: nat, before: Byte)
    ensures ByteAfter(ws + vs, a, before) == ByteAfter(vs, a, ByteAfter(ws, a, before))
    decreases |vs|
  {
    if vs == [] {
      assert ws + vs == ws;
    } else {
      assert (ws + vs)[..|ws + vs| - 1] == ws + vs[..|vs| - 1];
      ByteAfterConcat(ws, vs[..|vs| - 1], a, before);
    }
  }

  lemma {:induction false} ByteAfterUntouched(ws: seq<Write>, a: nat, before: Byte)
    requires forall w :: w in ws ==> !w.Covers(a)
    ensures ByteAfter(ws, a, before) == before
  {
    if ws != [] {
      assert ws[|ws| - 1] in ws;
      ByteAfterUntouched(ws[..|ws| - 1], a, before);
    }
  }

  /** Where writes do not overlap, each byte written ends as the one write that covers it says. */
  lemma {:induction false} ByteAfterCovered(ws: seq<Write>, a: nat, before: Byte, w: Write)
    requires PairwiseApart(ws) && w in ws && w.Covers(a)
    ensures ByteAfter(ws, a, before) == w.ByteAt(a)
  {
    var n := |ws| - 1;
    assert ws[n] in ws;
    if ws[n] != w {
      assert Apart(ws[n], w);
      assert ws == ws[..n] + [ws[n]];
      ByteAfterCovered(ws[..n], a, before, w);
    }
  }

  /** Non-overlapping writes may be made in any order, any number of times. */
  lemma {:induction false} OrderIrrelevant(ws: seq<Write>, vs: seq<Write>, a: nat, before: Byte)
    requires PairwiseApart(ws) && forall w :: w in ws <==> w in vs
    ensures ByteAfter(ws, a, before) == ByteAfter(vs, a, before)
  {
    assert PairwiseApart(vs);
    if w :| w in ws && w.Covers(a) {
      ByteAfterCovered(ws, a, before, w);
      ByteAfterCovered(vs, a, before, w);
    } else {
      ByteAfterUntouched(ws, a, before);
      ByteAfterUntouched(vs, a, before);
    }
  }
}
