/** Backtracking subset enumeration (`HWInput::selectN`, `HWInput::powerSet`). */
module Subsets {
  import opened Prelude

  /** A subset of `lo .. hi`, written as a strictly increasing list. */
  predicate IsPick(s: seq<nat>, lo: nat, hi: nat) {
    Ascending(s) && forall i :: 0 <= i < |s| ==> lo <= s[i] < hi
  }

  /** All ways to complete `path` to length `n` with increasing numbers from `i .. total`; no pruning. */
  function Enum(i: nat, total: nat, path: seq<nat>, n: nat): seq<seq<nat>>
    decreases total - i
  {
    if |path| == n then [path]
    else if i >= total then []
    else Enum(i + 1, total, path + [i], n) + Enum(i + 1, total, path, n)
  }

  lemma {:induction false} EnumCases(i: nat, total: nat, path: seq<nat>, n: nat)
    ensures Enum(i, total, path, n) ==
            if |path| == n then [path] else if i >= total then []
            else Enum(i + 1, total, path + [i], n) + Enum(i + 1, total, path, n)
  {
  }

  /** `s` completes `path` with numbers from `i .. total`. */
  predicate Completes(s: seq<nat>, path: seq<nat>, i: nat, total: nat) {
    |path| <= |s| && s[..|path|] == path && IsPick(s[|path|..], i, total)
  }

  lemma {:induction false} CompletesSplit(s: seq<nat>, path: seq<nat>, i: nat, total: nat)
    requires |path| < |s| && i < total
    ensures Completes(s, path, i, total) <==>
            Completes(s, path + [i], i + 1, total) || Completes(s, path, i + 1, total)
  {
    var p := |path|;
    var t := s[p..];
    assert s[..p + 1] == s[..p] + [s[p]];
    assert s[p + 1..] == t[1..];
    assert forall k :: 0 < k < |t| ==> t[1..][k - 1] == t[k];
  }

  /** The enumeration yields exactly the completions of `path` of length `n`. */
  lemma {:induction false} EnumMembers(i: nat, total: nat, path: seq<nat>, n: nat, s: seq<nat>)
    requires |path| <= n
    ensures s in Enum(i, total, path, n) <==> |s| == n && Completes(s, path, i, total)
    decreases total - i
  {
    if |path| == n {
      if |s| == n {
        assert s[..n] == s;
      }
    } else if i < total {
      EnumMembers(i + 1, total, path + [i], n, s);
      EnumMembers(i + 1, total, path, n, s);
      if |s| == n {
        CompletesSplit(s, path, i, total);
      }
    } else if |s| == n {
      var first := s[|path|..][0];
      assert !(i <= first < total);
    }
  }

  /** The pruning test of `selectN` drops no solution. */
  lemma {:induction false} PruningIsSound(i: nat, total: nat, path: seq<nat>, n: nat)
    requires i <= total && total - i + |path| < n
    ensures Enum(i, total, path, n) == []
    decreases total - i
  {
    if i < total {
      PruningIsSound(i + 1, total, path + [i], n);
      PruningIsSound(i + 1, total, path, n);
    }
  }

  predicate LexLess(s: seq<nat>, t: seq<nat>) {
    exists k :: 0 <= k < |s| && k < |t| && s[..k] == t[..k] && s[k] < t[k]
  }

  /** Shorter lists first, lists of equal length in lexicographic order. */
  predicate Before(s: seq<nat>, t: seq<nat>) {
    |s| < |t| || (|s| == |t| && LexLess(s, t))
  }

  predicate Ordered(r: seq<seq<nat>>) {
    forall a, b :: 0 <= a < b < |r| ==> Before(r[a], r[b])
  }

  lemma {:induction false} OrderedConcat(r1: seq<seq<nat>>, r2: seq<seq<nat>>)
    requires Ordered(r1) && Ordered(r2)
    requires forall s, t :: s in r1 && t in r2 ==> Before(s, t)
    ensures Ordered(r1 + r2)
  {
    hide Before;
    var r := r1 + r2;
    forall a, b | 0 <= a < b < |r|
      ensures Before(r[a], r[b])
    {
      if a < |r1| && b >= |r1| {
        assert r[a] in r1 && r[b] in r2;
      } else if a >= |r1| {
        assert r[a] == r2[a - |r1|] && r[b] == r2[b - |r1|];
      }
    }
  }

  lemma {:induction false} EnumOrdered(i: nat, total: nat, path: seq<nat>, n: nat)
    requires |path| <= n
    ensures Ordered(Enum(i, total, path, n))
    decreases total - i
  {
    if |path| < n && i < total {
      var r1, r2 := Enum(i + 1, total, path + [i], n), Enum(i + 1, total, path, n);
      EnumOrdered(i + 1, total, path + [i], n);
      EnumOrdered(i + 1, total, path, n);
      forall s, t | s in r1 && t in r2
        ensures Before(s, t)
      {
        EnumMembers(i + 1, total, path + [i], n, s);
        EnumMembers(i + 1, total, path, n, t);
        var k := |path|;
        assert s[..k] == s[..k + 1][..k] == path == t[..k];
        assert s[k] == s[..k + 1][k] == i;
        assert t[k] == t[k..][0];
      }
      OrderedConcat(r1, r2);
    }
  }

  /** What `powerSet` yields: the subsets of `0 .. n` of size 1, then 2, and so on up to `k`. */
  function PowerSet(n: nat, k: nat): seq<seq<nat>> {
    if k == 0 then [] else PowerSet(n, k - 1) + Enum(0, n, [], k)
  }

  lemma {:induction false} PowerSetMembers(n: nat, k: nat, s: seq<nat>)
    ensures s in PowerSet(n, k) <==> 1 <= |s| <= k && IsPick(s, 0, n)
  {
    if k > 0 {
      PowerSetMembers(n, k - 1, s);
      EnumMembers(0, n, [], k, s);
      assert s[0..] == s;
    }
  }

  lemma {:induction false} PowerSetOrdered(n: nat, k: nat)
    ensures Ordered(PowerSet(n, k))
  {
    if k > 0 {
      PowerSetOrdered(n, k - 1);
      EnumOrdered(0, n, [], k);
      forall s, t | s in PowerSet(n, k - 1) && t in Enum(0, n, [], k)
        ensures Before(s, t)
      {
        PowerSetMembers(n, k - 1, s);
        EnumMembers(0, n, [], k, t);
      }
      OrderedConcat(PowerSet(n, k - 1), Enum(0, n, [], k));
    }
  }

  lemma {:induction false} PickLength(s: seq<nat>, lo: nat, hi: nat)
    requires IsPick(s, lo, hi)
    ensures |s| <= if lo <= hi then hi - lo else 0
  {
    if s != [] {
      PickLength(s[..|s| - 1], lo, s[|s| - 1]);
    }
  }

  lemma {:induction false} BeforeIrreflexive(s: seq<nat>)
    ensures !Before(s, s)
  {
  }

  /**
    * For every `n`, `powerSet` yields every non-empty subset of `0 .. n` as a strictly increasing list,
    * each exactly once, ordered by size and then lexicographically.
    */
  lemma {:induction false} PowerSetMeaning(n: nat)
    ensures forall s :: s in PowerSet(n, n) <==> s != [] && IsPick(s, 0, n)
    ensures Ordered(PowerSet(n, n))
    ensures forall a, b :: 0 <= a < b < |PowerSet(n, n)| ==> PowerSet(n, n)[a] != PowerSet(n, n)[b]
  {
    hide Before, PowerSet, IsPick;
    var r := PowerSet(n, n);
    PowerSetOrdered(n, n);
    forall s
      ensures s in r <==> s != [] && IsPick(s, 0, n)
    {
      PowerSetMembers(n, n, s);
      if IsPick(s, 0, n) {
        PickLength(s, 0, n);
      }
    }
    forall a, b | 0 <= a < b < |r|
      ensures r[a] != r[b]
    {
      BeforeIrreflexive(r[a]);
    }
  }

  /** The vectors `res` and `path` that `selectN` pushes to and pops from. */
  class Enumerator {
    var res: seq<seq<nat>>
    var path: seq<nat>

    constructor ()
      ensures res == [] && path == []
    {
      res, path := [], [];
    }

    /** `selectN`: appends exactly the completions of `path` and leaves `path` as it found it. */
    method SelectN(start: nat, total: nat, n: nat)
      requires start <= total && |path| <= n
      modifies this
      ensures path == old(path)
      ensures res == old(res) + Enum(start, total, old(path), n)
      decreases total - start
    {
      hide Enum;
      EnumCases(start, total, path, n);
      if |path| == n {
        res := res + [path];
        return;
      }
      if total - start + |path| < n {
        PruningIsSound(start, total, path, n);
        return;
      }
      ghost var found: seq<seq<nat>> := [];
      var i := start;
      while i < total
        invariant start <= i <= total && path == old(path)
        invariant res == old(res) + found
        invariant Enum(start, total, path, n) == found + Enum(i, total, path, n)
      {
        EnumCases(i, total, path, n);
        path := path + [i];
        SelectN(i + 1, total, n);
        found := found + Enum(i + 1, total, path, n);
        path := path[..|path| - 1];
        i := i + 1;
      }
      EnumCases(total, total, path, n);
    }

    /** `powerSet`, starting from an empty path. */
    method FillPowerSet(n: nat)
      requires path == []
      modifies this
      ensures path == [] && res == old(res) + PowerSet(n, n)
    {
      for k := 1 to n + 1
        invariant path == [] && res == old(res) + PowerSet(n, k - 1)
      {
        SelectN(0, n, k);
      }
    }
  }
}
