/** Dictionaries of interesting register values (`HWInput::generateBitCombs`, `genDict`, `feedData`). */
module Dictionary {
  import opened Prelude
  import opened Words
  import opened Subsets

  function Or(a: Word, b: Word): Word {
    a | b
  }

  function Not(a: Word): Word {
    !a
  }

  /** All bits of `a` are bits of `u`. */
  predicate Submask(a: Word, u: Word) {
    a & u == a
  }

  function MaskAt(masks: seq<Word>, i: nat): Word {
    if i < |masks| then masks[i] else 0
  }

  /** Bitwise OR of the masks at the given indices (which `powerSet` keeps in range). */
  function OrOf(masks: seq<Word>, idx: seq<nat>): Word {
    if idx == [] then 0 else Or(OrOf(masks, idx[..|idx| - 1]), MaskAt(masks, idx[|idx| - 1]))
  }

  /** `important_bits`: the union of all masks. */
  function Union(masks: seq<Word>): Word {
    if masks == [] then 0 else Or(Union(masks[..|masks| - 1]), masks[|masks| - 1])
  }

  /** The number a `uint64_t` stands for. */
  function Value(a: Word): (x: int)
    ensures 0 <= x < 0x1_0000_0000_0000_0000
  {
    a as int
  }

  function FromValue(x: int): Word
    requires 0 <= x < 0x1_0000_0000_0000_0000
  {
    x as bv64
  }

  lemma {:induction false} ValueRoundTrip(a: Word)
    ensures FromValue(Value(a)) == a
  {
  }

  /** The order of `uint64_t`. */
  predicate Less(a: Word, b: Word) {
    Value(a) < Value(b)
  }

  lemma {:induction false} LessOrder(a: Word, b: Word, c: Word)
    ensures Less(a, b) && Less(b, c) ==> Less(a, c)
    ensures !Less(a, a) && (Less(a, b) || a == b || Less(b, a))
  {
    hide Value, FromValue;
    ValueRoundTrip(a);
    ValueRoundTrip(b);
  }

  predicate Sorted(s: seq<Word>) {
    forall i, j :: 0 <= i < j < |s| ==> Less(s[i], s[j])
  }

  lemma {:induction false} SortedAscends(s: seq<Word>)
    ensures Sorted(s) <==> forall i, j :: 0 <= i < j < |s| ==> Value(s[i]) < Value(s[j])
  {
    hide Value;
  }

  /** A word's value is its unsigned number. */
  lemma {:induction false} ValueIsNumber(a: Word)
    ensures Value(a) == a as int
  {
  }

  /** Insertion into a `std::set<uint64_t>`, kept as its ascending element sequence. */
  function Insert(s: seq<Word>, v: Word): seq<Word> {
    if s == [] then [v]
    else if Less(v, s[0]) then [v] + s
    else if v == s[0] then s
    else [s[0]] + Insert(s[1..], v)
  }

  lemma {:induction false} InsertMembers(s: seq<Word>, v: Word, x: Word)
    ensures x in Insert(s, v) <==> x in s || x == v
  {
    hide Less;
    if s != [] && !Less(v, s[0]) && v != s[0] {
      InsertMembers(s[1..], v, x);
      assert s == [s[0]] + s[1..];
    }
  }

  lemma {:induction false} ConsSorted(a: Word, s: seq<Word>)
    requires Sorted(s) && forall x :: x in s ==> Less(a, x)
    ensures Sorted([a] + s)
  {
    hide Less;
    forall i, j | 0 <= i < j < |[a] + s|
      ensures Less(([a] + s)[i], ([a] + s)[j])
    {
      if i == 0 {
        assert s[j - 1] in s;
      }
    }
  }

  lemma {:induction false} InsertSorted(s: seq<Word>, v: Word)
    requires Sorted(s)
    ensures Sorted(Insert(s, v))
  {
    hide Less;
    if s != [] {
      LessOrder(v, s[0], s[0]);
      forall x | x in s
        ensures x == s[0] || Less(s[0], x)
        ensures Less(v, s[0]) ==> Less(v, x)
      {
        LessOrder(v, s[0], x);
      }
      if Less(v, s[0]) {
        ConsSorted(v, s);
      } else if v != s[0] {
        InsertSorted(s[1..], v);
        forall x | x in Insert(s[1..], v)
          ensures Less(s[0], x)
        {
          InsertMembers(s[1..], v, x);
        }
        ConsSorted(s[0], Insert(s[1..], v));
      }
    }
  }

  lemma {:induction false} OrSubmask(a: Word, b: Word, u: Word)
    requires Submask(a, u) && Submask(b, u)
    ensures Submask(Or(a, b), u)
  {
  }

  lemma {:induction false} OrGrows(a: Word, u: Word, b: Word)
    requires Submask(a, u)
    ensures Submask(a, Or(u, b))
  {
  }

  lemma {:induction false} OrRight(u: Word, a: Word)
    ensures Submask(a, Or(u, a)) && Submask(0, u)
  {
  }

  /** Inserts `vs` one after the other. */
  function InsertAll(s: seq<Word>, vs: seq<Word>): seq<Word> {
    if vs == [] then s else Insert(InsertAll(s, vs[..|vs| - 1]), vs[|vs| - 1])
  }

  lemma {:induction false} InsertAllWorks(s: seq<Word>, vs: seq<Word>)
    requires Sorted(s)
    ensures Sorted(InsertAll(s, vs))
    ensures forall x :: x in InsertAll(s, vs) <==> x in s || x in vs
  {
    hide Less, Insert;
    if vs != [] {
      var n := |vs| - 1;
      InsertAllWorks(s, vs[..n]);
      InsertSorted(InsertAll(s, vs[..n]), vs[n]);
      assert vs == vs[..n] + [vs[n]];
      forall x
        ensures x in InsertAll(s, vs) <==> x in s || x in vs
      {
        InsertMembers(InsertAll(s, vs[..n]), vs[n], x);
      }
    }
  }

  /** The OR of every listed combination of masks. */
  function PickValues(masks: seq<Word>, picks: seq<seq<nat>>): (r: seq<Word>)
    ensures |r| == |picks|
    ensures forall i :: 0 <= i < |picks| ==> r[i] == OrOf(masks, picks[i])
  {
    if picks == [] then [] else PickValues(masks, picks[..|picks| - 1]) + [OrOf(masks, picks[|picks| - 1])]
  }

  /** The fields of an `HWInput` that `genDict` works on. */
  datatype Input = Input(
    masks: seq<Word>,
    magics: seq<Word>,
    specials: seq<Word>,
    important: Word,
    combSet: seq<Word>,
    combs: seq<Word>,
    dict: seq<Word>)

  /** What the constructor starts from, before its call of `genDict`. */
  predicate Blank(inp: Input) {
    inp.combSet == [] && inp.combs == [] && inp.dict == []
  }

  /** `generateBitCombs`. */
  function GenCombs(inp: Input): Input {
    var n, u := |inp.masks|, Union(inp.masks);
    if n == 0 then inp.(important := 0)
    else if n > 4 then inp.(important := u, combs := inp.combs + [u] + inp.masks + [0, Not(u)])
    else
      var cs := InsertAll(inp.combSet, PickValues(inp.masks, PowerSet(n, n)) + [0, Not(u)]);
      inp.(important := u, combSet := cs, combs := inp.combs + cs)
  }

  /** `genDict`. */
  function GenDict(inp: Input): Input {
    var i := GenCombs(inp);
    i.(dict := inp.dict + inp.magics + i.combs + inp.specials)
  }

  // ---- unions and complements, by what they are ----

  /** All bits of the chosen masks are bits of `u`. */
  predicate Above(masks: seq<Word>, idx: seq<nat>, u: Word) {
    forall k :: 0 <= k < |idx| ==> idx[k] < |masks| && Submask(masks[idx[k]], u)
  }

  /** `v` has exactly the bits of the chosen masks: all of them, and no bit more than it must. */
  ghost predicate IsJoin(masks: seq<Word>, idx: seq<nat>, v: Word) {
    Above(masks, idx, v) && forall u :: Above(masks, idx, u) ==> Submask(v, u)
  }

  predicate AboveAll(masks: seq<Word>, u: Word) {
    forall k :: 0 <= k < |masks| ==> Submask(masks[k], u)
  }

  /** `v` has exactly the bits of all masks. */
  ghost predicate IsUnion(masks: seq<Word>, v: Word) {
    AboveAll(masks, v) && forall u :: AboveAll(masks, u) ==> Submask(v, u)
  }

  /** Every bit is a bit of exactly one of the two. */
  predicate IsComplement(u: Word, v: Word) {
    Xor(u, v) == 0xffff_ffff_ffff_ffff
  }

  lemma {:induction false} SubmaskBoth(a: Word, b: Word)
    requires Submask(a, b) && Submask(b, a)
    ensures a == b
  {
  }

  lemma {:induction false} JoinUnique(masks: seq<Word>, idx: seq<nat>, v: Word, w: Word)
    requires IsJoin(masks, idx, v) && IsJoin(masks, idx, w)
    ensures v == w
  {
    hide Submask, Above;
    SubmaskBoth(v, w);
  }

  lemma {:induction false} UnionUnique(masks: seq<Word>, v: Word, w: Word)
    requires IsUnion(masks, v) && IsUnion(masks, w)
    ensures v == w
  {
    hide Submask, AboveAll;
    SubmaskBoth(v, w);
  }

  /** The bits of a complement: none in common, and all together. */
  lemma {:induction false} ComplementBits(u: Word)
    ensures Not(u) & u == 0 && Not(u) | u == 0xffff_ffff_ffff_ffff && Not(u) == Xor(u, 0xffff_ffff_ffff_ffff)
  {
  }

  lemma {:induction false} ComplementExactly(u: Word, v: Word)
    ensures IsComplement(u, v) <==> v == Not(u)
  {
    hide Xor, Not;
    ComplementBits(u);
    XorUnits(u);
    XorUnits(v);
    XorUnits(0xffff_ffff_ffff_ffff);
    XorAssoc(u, u, v);
    XorAssoc(u, u, 0xffff_ffff_ffff_ffff);
  }

  lemma {:induction false} OrOfAbove(masks: seq<Word>, idx: seq<nat>)
    requires forall k :: 0 <= k < |idx| ==> idx[k] < |masks|
    ensures Above(masks, idx, OrOf(masks, idx))
  {
    hide Or, Submask;
    if idx != [] {
      var n := |idx| - 1;
      OrOfAbove(masks, idx[..n]);
      OrRight(OrOf(masks, idx[..n]), masks[idx[n]]);
      forall k | 0 <= k < |idx|
        ensures Submask(masks[idx[k]], OrOf(masks, idx))
      {
        if k < n {
          assert idx[..n][k] == idx[k];
          OrGrows(masks[idx[k]], OrOf(masks, idx[..n]), masks[idx[n]]);
        }
      }
    }
  }

  lemma {:induction false} OrOfLeast(masks: seq<Word>, idx: seq<nat>, u: Word)
    requires Above(masks, idx, u)
    ensures Submask(OrOf(masks, idx), u)
  {
    hide Or, Submask;
    if idx == [] {
      OrRight(u, 0);
    } else {
      var n := |idx| - 1;
      assert forall k :: 0 <= k < n ==> idx[..n][k] == idx[k];
      OrOfLeast(masks, idx[..n], u);
      OrSubmask(OrOf(masks, idx[..n]), masks[idx[n]], u);
    }
  }

  /** The loop over the indices of a combination computes the join of its masks. */
  lemma {:induction false} OrOfIsJoin(masks: seq<Word>, idx: seq<nat>)
    requires forall k :: 0 <= k < |idx| ==> idx[k] < |masks|
    ensures IsJoin(masks, idx, OrOf(masks, idx))
  {
    hide Submask, OrOf, Above;
    OrOfAbove(masks, idx);
    forall u | Above(masks, idx, u)
      ensures Submask(OrOf(masks, idx), u)
    {
      OrOfLeast(masks, idx, u);
    }
  }

  lemma {:induction false} MaskInUnion(masks: seq<Word>, i: nat)
    requires i < |masks|
    ensures Submask(masks[i], Union(masks))
  {
    hide Or, Submask;
    var n := |masks| - 1;
    if i < n {
      MaskInUnion(masks[..n], i);
      OrGrows(masks[i], Union(masks[..n]), masks[n]);
    } else {
      OrRight(Union(masks[..n]), masks[n]);
    }
  }

  lemma {:induction false} UnionAbove(masks: seq<Word>)
    ensures AboveAll(masks, Union(masks))
  {
    hide Union, Submask;
    forall k | 0 <= k < |masks|
      ensures Submask(masks[k], Union(masks))
    {
      MaskInUnion(masks, k);
    }
  }

  lemma {:induction false} UnionLeast(masks: seq<Word>, u: Word)
    requires AboveAll(masks, u)
    ensures Submask(Union(masks), u)
  {
    hide Or, Submask;
    if masks == [] {
      OrRight(u, 0);
    } else {
      var n := |masks| - 1;
      UnionLeast(masks[..n], u);
      OrSubmask(Union(masks[..n]), masks[n], u);
    }
  }

  /** `important_bits` has exactly the bits of all masks. */
  lemma {:induction false} UnionIsUnion(masks: seq<Word>)
    ensures IsUnion(masks, Union(masks))
  {
    hide Submask, Union, AboveAll;
    UnionAbove(masks);
    forall u | AboveAll(masks, u)
      ensures Submask(Union(masks), u)
    {
      UnionLeast(masks, u);
    }
  }

  /** The complement of the union of all masks. */
  ghost predicate IsRest(masks: seq<Word>, v: Word) {
    exists u :: IsUnion(masks, u) && IsComplement(u, v)
  }

  lemma {:induction false} RestExactly(masks: seq<Word>, v: Word)
    ensures IsRest(masks, v) <==> v == Not(Union(masks))
  {
    hide IsUnion, IsComplement, Union, Not;
    UnionIsUnion(masks);
    ComplementExactly(Union(masks), v);
    if IsRest(masks, v) {
      var u :| IsUnion(masks, u) && IsComplement(u, v);
      UnionUnique(masks, u, Union(masks));
    }
  }

  /** The values the bit combinations are meant to be. */
  ghost predicate Wanted(masks: seq<Word>, v: Word) {
    if |masks| == 0 then false
    else if |masks| > 4 then IsUnion(masks, v) || v in masks || v == 0 || IsRest(masks, v)
    else IsRest(masks, v) || exists s :: IsPick(s, 0, |masks|) && IsJoin(masks, s, v)
  }

  lemma {:induction false} EmptyPick(masks: seq<Word>)
    ensures IsPick([], 0, |masks|) && OrOf(masks, []) == 0
  {
  }

  lemma {:induction false} PickJoin(masks: seq<Word>, s: seq<nat>, v: Word)
    requires IsPick(s, 0, |masks|)
    ensures IsJoin(masks, s, v) <==> v == OrOf(masks, s)
  {
    hide IsJoin, OrOf;
    OrOfIsJoin(masks, s);
    if IsJoin(masks, s, v) {
      JoinUnique(masks, s, v, OrOf(masks, s));
    }
  }

  lemma {:induction false} PickValuesAreOrs(masks: seq<Word>, v: Word)
    ensures v in PickValues(masks, PowerSet(|masks|, |masks|)) || v == 0 <==>
            exists s :: IsPick(s, 0, |masks|) && v == OrOf(masks, s)
  {
    hide OrOf, PowerSet, PickValues, IsPick;
    var n := |masks|;
    var picks := PowerSet(n, n);
    var vals := PickValues(masks, picks);
    PowerSetMeaning(n);
    EmptyPick(masks);
    if v in vals {
      var i :| 0 <= i < |vals| && vals[i] == v;
      assert picks[i] in picks;
    } else if v != 0 {
      forall s | IsPick(s, 0, n)
        ensures v != OrOf(masks, s)
      {
        if s != [] {
          assert s in picks;
          var i :| 0 <= i < |picks| && picks[i] == s;
          assert vals[i] in vals;
        }
      }
    }
  }

  /** The values inserted for all combinations, and 0, are exactly the joins of all subsets of the masks. */
  lemma {:induction false} PickValuesMeaning(masks: seq<Word>, v: Word)
    ensures v in PickValues(masks, PowerSet(|masks|, |masks|)) || v == 0 <==>
            exists s :: IsPick(s, 0, |masks|) && IsJoin(masks, s, v)
  {
    hide OrOf, PowerSet, PickValues, IsPick, IsJoin;
    PickValuesAreOrs(masks, v);
    forall s | IsPick(s, 0, |masks|)
      ensures IsJoin(masks, s, v) <==> v == OrOf(masks, s)
    {
      PickJoin(masks, s, v);
    }
  }

  /** Invariant of an input that has been built at least once: which values its vectors hold. */
  ghost predicate Built(inp: Input) {
    && Sorted(inp.combSet)
    && (1 <= |inp.masks| <= 4 ==> forall v :: v in inp.combSet <==> Wanted(inp.masks, v))
    && (forall v :: v in inp.combs <==> Wanted(inp.masks, v))
    && (forall v :: v in inp.dict <==> v in inp.magics || Wanted(inp.masks, v) || v in inp.specials)
  }

  lemma {:induction false} NoneWanted(masks: seq<Word>)
    requires masks == []
    ensures forall v :: !Wanted(masks, v)
  {
  }

  lemma {:induction false} FewWanted(masks: seq<Word>, v: Word)
    requires 1 <= |masks| <= 4
    ensures v in PickValues(masks, PowerSet(|masks|, |masks|)) + [0, Not(Union(masks))] <==> Wanted(masks, v)
  {
    hide PowerSet, PickValues, Union, Not, IsRest, IsPick, IsJoin;
    PickValuesMeaning(masks, v);
    RestExactly(masks, v);
  }

  lemma {:induction false} ManyWanted(masks: seq<Word>, v: Word)
    requires |masks| > 4
    ensures v in [Union(masks)] + masks + [0, Not(Union(masks))] <==> Wanted(masks, v)
  {
    hide Union, Not, IsRest, IsUnion;
    RestExactly(masks, v);
    UnionIsUnion(masks);
    if IsUnion(masks, v) {
      UnionUnique(masks, v, Union(masks));
    }
  }

  /** The combinations of one build, whatever was in the set before was wanted already. */
  lemma {:induction false} CombsMeaning(inp: Input)
    requires Sorted(inp.combSet)
    requires 1 <= |inp.masks| <= 4 ==> forall v :: v in inp.combSet ==> Wanted(inp.masks, v)
    requires forall v :: v in inp.combs ==> Wanted(inp.masks, v)
    ensures var i := GenCombs(inp);
            && Sorted(i.combSet)
            && (1 <= |inp.masks| <= 4 ==> forall v :: v in i.combSet <==> Wanted(inp.masks, v))
            && (forall v :: v in i.combs <==> Wanted(inp.masks, v))
  {
    hide Sorted, PowerSet, PickValues, InsertAll, Union, Not, Wanted;
    var n, u := |inp.masks|, Union(inp.masks);
    if n == 0 {
      NoneWanted(inp.masks);
    } else if n <= 4 {
      var vals := PickValues(inp.masks, PowerSet(n, n)) + [0, Not(u)];
      InsertAllWorks(inp.combSet, vals);
      forall v
        ensures v in vals <==> Wanted(inp.masks, v)
      {
        FewWanted(inp.masks, v);
      }
    } else {
      forall v
        ensures v in [u] + inp.masks + [0, Not(u)] <==> Wanted(inp.masks, v)
      {
        ManyWanted(inp.masks, v);
      }
    }
  }

  lemma {:induction false} NothingWanted(inp: Input)
    requires Blank(inp)
    ensures Sorted(inp.combSet) && (forall v :: v in inp.combSet ==> Wanted(inp.masks, v))
    ensures forall v :: v in inp.combs ==> Wanted(inp.masks, v)
  {
  }

  lemma {:induction false} BlankCombs(inp: Input)
    requires Blank(inp)
    ensures 1 <= |inp.masks| <= 4 ==> GenCombs(inp).combs == GenCombs(inp).combSet
  {
    hide InsertAll, Union, PickValues, PowerSet, Not;
  }

  lemma {:induction false} KeepsLists(inp: Input)
    ensures var i := GenCombs(inp);
            i.masks == inp.masks && i.magics == inp.magics && i.specials == inp.specials && i.dict == inp.dict
  {
  }

  lemma {:induction false} EmptyUnion(masks: seq<Word>)
    requires masks == []
    ensures Union(masks) == 0
  {
  }

  lemma {:induction false} ManyInOrder(inp: Input)
    requires Blank(inp)
    ensures IsUnion(inp.masks, GenCombs(inp).important)
    ensures |inp.masks| > 4 ==>
              var cs := GenCombs(inp).combs;
              && |cs| == |inp.masks| + 3 && cs[1..|inp.masks| + 1] == inp.masks
              && IsUnion(inp.masks, cs[0]) && cs[|inp.masks| + 1] == 0
  {
    hide Union, IsUnion, Not, InsertAll, PickValues, PowerSet;
    UnionIsUnion(inp.masks);
    if inp.masks == [] {
      EmptyUnion(inp.masks);
    }
  }

  /**
    * Dictionary meaning of the first build.  With 1 to 4 masks the combinations are, in strictly
    * ascending order, exactly the ORs of all subsets of the masks (0 for the empty one) and the
    * complement of the union; with more masks they are the union, each mask, 0 and the complement, in this
    * order.  The dictionary is the magic values, the combinations and the special values, one after the other.
    */
  lemma {:induction false} FirstBuild(inp: Input)
    requires Blank(inp)
    ensures var i := GenDict(inp);
            && (1 <= |inp.masks| <= 4 ==>
                  forall x, y :: 0 <= x < y < |i.combs| ==> Value(i.combs[x]) < Value(i.combs[y]))
            && (|inp.masks| > 4 ==> |i.combs| == |inp.masks| + 3 && i.combs[1..|inp.masks| + 1] == inp.masks
                                    && IsUnion(inp.masks, i.combs[0]) && i.combs[|inp.masks| + 1] == 0)
            && (forall v :: v in i.combs <==> Wanted(inp.masks, v))
            && i.dict == inp.magics + i.combs + inp.specials && IsUnion(inp.masks, i.important)
            && Built(i)
  {
    hide Sorted, Wanted, GenCombs, IsUnion, Value;
    ManyInOrder(inp);
    SortedAscends(GenCombs(inp).combs);
    NothingWanted(inp);
    CombsMeaning(inp);
    BlankCombs(inp);
    KeepsLists(inp);
  }

  lemma {:induction false} CombsGrow(inp: Input)
    ensures inp.combs <= GenCombs(inp).combs
  {
    hide Union, Not, InsertAll, PickValues, PowerSet;
  }

  /** Building again, as `setUSBModel` does, appends everything once more and leaves the value sets of
      combinations and dictionary unchanged. */
  lemma {:induction false} RebuildKeepsValues(inp: Input)
    requires Built(inp)
    ensures Built(GenDict(inp))
    ensures forall v :: v in GenDict(inp).dict <==> v in inp.dict
    ensures var i := GenDict(inp);
            inp.combs <= i.combs && i.dict == inp.dict + (inp.magics + i.combs + inp.specials)
  {
    hide Sorted, Wanted, GenCombs;
    CombsMeaning(inp);
    KeepsLists(inp);
    CombsGrow(inp);
  }

  function Rebuilt(inp: Input, k: nat): Input {
    if k == 0 then GenDict(inp) else GenDict(Rebuilt(inp, k - 1))
  }

  /** However often a model is installed, its dictionary holds the values of the first build. */
  lemma {:induction false} AnyNumberOfBuilds(inp: Input, k: nat)
    requires Blank(inp)
    ensures Built(Rebuilt(inp, k))
    ensures forall v :: v in Rebuilt(inp, k).dict <==> v in GenDict(inp).dict
  {
    hide Built, GenDict;
    if k == 0 {
      FirstBuild(inp);
    } else {
      AnyNumberOfBuilds(inp, k - 1);
      RebuildKeepsValues(Rebuilt(inp, k - 1));
    }
  }

  lemma {:induction false} SubmaskOfZero(u: Word)
    ensures Submask(0, u) && Submask(u, u)
  {
  }

  /** Every combination but the complement of the union sets important bits only. */
  lemma {:induction false} CombsAreSubmasks(masks: seq<Word>, u: Word, v: Word)
    requires IsUnion(masks, u) && Wanted(masks, v)
    ensures Submask(v, u) || IsComplement(u, v)
  {
    hide Submask, IsComplement, IsPick;
    SubmaskOfZero(u);
    if IsRest(masks, v) {
      var w :| IsUnion(masks, w) && IsComplement(w, v);
      UnionUnique(masks, u, w);
    } else if |masks| > 4 {
      if IsUnion(masks, v) {
        UnionUnique(masks, u, v);
      }
    } else {
      var s :| IsPick(s, 0, |masks|) && IsJoin(masks, s, v);
      assert Above(masks, s, u);
    }
  }

  lemma {:induction false} NoMasks(inp: Input)
    requires inp.masks == []
    ensures GenCombs(inp).combs == inp.combs
  {
  }

  /** `feedData` divides by the dictionary's size; that is safe exactly when the model constrains anything. */
  lemma {:induction false} DictNonEmpty(inp: Input)
    requires Blank(inp)
    ensures GenDict(inp).dict != [] <==> inp.masks != [] || inp.magics != [] || inp.specials != []
  {
    hide Sorted, GenCombs, IsRest, Union, Not, IsUnion, IsPick, IsJoin;
    NothingWanted(inp);
    CombsMeaning(inp);
    RestExactly(inp.masks, Not(Union(inp.masks)));
    var cs := GenCombs(inp).combs;
    assert |GenDict(inp).dict| == |inp.magics| + |cs| + |inp.specials|;
    if inp.masks == [] {
      NoMasks(inp);
    } else {
      assert Wanted(inp.masks, Not(Union(inp.masks)));
      assert Not(Union(inp.masks)) in cs;
    }
  }

  datatype Mode = RandomMode | DictMode

  /** The outcomes of `rand()` in one call of `feedData`. */
  datatype Rolls = Rolls(useModel: bool, useHybrid: bool, pick: nat)

  /** Whether a call of `feedData` picks from the dictionary, dividing by its size. */
  predicate Picks(mode: Mode, rolls: Rolls) {
    mode == DictMode || rolls.useModel
  }

  function Pick(vs: seq<Word>, n: nat): (v: Word)
    requires vs != []
    ensures v in vs
  {
    vs[n % |vs|]
  }

  /** `hybridRand`: add one of the bit combinations, if there are any. */
  function Hybrid(inp: Input, orig: Word, n: nat): (v: Word)
    ensures Submask(orig, v)
  {
    if inp.combs == [] then orig
    else
      OrRight(Pick(inp.combs, n), orig);
      Or(Pick(inp.combs, n), orig)
  }

  /** `feedData`: in dictionary mode always a dictionary value; in random mode a dictionary value or a
      word in which all bits of the original survive. */
  function FeedData(inp: Input, mode: Mode, orig: Word, rolls: Rolls): (v: Word)
    requires Picks(mode, rolls) ==> inp.dict != []
    ensures mode == DictMode ==> v in inp.dict
    ensures mode == RandomMode ==> v in inp.dict || Submask(orig, v)
  {
    if mode == DictMode then Pick(inp.dict, Value(orig))
    else if rolls.useModel then Pick(inp.dict, rolls.pick)
    else if rolls.useHybrid then Hybrid(inp, orig, rolls.pick)
    else orig
  }

  lemma {:induction false} ByteValue(b: Byte)
    ensures Value(b as Word) == b as int
  {
  }

  lemma {:induction false} ByteSucc(b: Byte)
    requires b != 255
    ensures (b + 1) as int == b as int + 1
  {
  }

  function ByteOf(k: nat): (b: Byte)
    requires k < 256
    ensures b as int == k
  {
    if k == 0 then 0
    else
      var b := ByteOf(k - 1);
      ByteSucc(b);
      b + 1
  }

  lemma {:induction false} ModSmall(k: nat, n: nat)
    requires k < n
    ensures k % n == k
  {
  }

  lemma {:induction false} ModBound(x: nat, n: nat)
    requires n > 0
    ensures x % n <= x
  {
    assert x == (x / n) * n + x % n;
  }

  /** Which entry is picked: originals, or random numbers, that differ by a multiple of the dictionary's size
      pick the same one, and those below the size pick the entry of that number. */
  lemma {:induction false} EntryPicked(inp: Input, orig: Word, rolls: Rolls, k: nat, m: nat)
    requires k < |inp.dict|
    ensures Value(orig) == k + m * |inp.dict| ==> FeedData(inp, DictMode, orig, rolls) == inp.dict[k]
    ensures rolls.useModel && rolls.pick == k + m * |inp.dict| ==>
              FeedData(inp, RandomMode, orig, rolls) == inp.dict[k]
  {
    hide Value;
    DivModUnique(k + m * |inp.dict|, |inp.dict|, m, k);
  }

  /** A single fuzz byte, which is what DMA filling passes in dictionary mode, selects exactly among the
      first 256 entries: each of them is selected by some byte, and no byte selects a later one. */
  lemma {:induction false} ByteSelects(inp: Input, k: nat, b: Byte, rolls: Rolls)
    requires k < |inp.dict|
    ensures k < 256 ==> FeedData(inp, DictMode, ByteOf(k) as Word, rolls) == inp.dict[k]
    ensures exists i :: 0 <= i < |inp.dict| && i < 256 && FeedData(inp, DictMode, b as Word, rolls) == inp.dict[i]
  {
    hide Value, ByteOf;
    if k < 256 {
      ByteValue(ByteOf(k));
      ModSmall(k, |inp.dict|);
    }
    ByteValue(b);
    ModBound(b as int, |inp.dict|);
    var i := (b as int) % |inp.dict|;
    assert FeedData(inp, DictMode, b as Word, rolls) == inp.dict[i];
  }

  /** The possible results in random mode. */
  ghost predicate Possible(inp: Input, orig: Word, v: Word) {
    v in inp.dict || v == orig || exists c :: c in inp.combs && v == Or(c, orig)
  }

  lemma {:induction false} RollIsPossible(inp: Input, orig: Word, rolls: Rolls)
    requires Picks(RandomMode, rolls) ==> inp.dict != []
    ensures Possible(inp, orig, FeedData(inp, RandomMode, orig, rolls))
  {
    hide Or, Value;
    if inp.combs != [] {
      assert inp.combs[rolls.pick % |inp.combs|] in inp.combs;
    }
  }

  lemma {:induction false} RollFor(inp: Input, orig: Word, v: Word) returns (rolls: Rolls)
    requires Possible(inp, orig, v)
    ensures (Picks(RandomMode, rolls) ==> inp.dict != []) && FeedData(inp, RandomMode, orig, rolls) == v
  {
    hide Or, Value;
    if v in inp.dict {
      var k :| 0 <= k < |inp.dict| && inp.dict[k] == v;
      ModSmall(k, |inp.dict|);
      rolls := Rolls(true, false, k);
    } else if v == orig {
      rolls := Rolls(false, false, 0);
    } else {
      var c :| c in inp.combs && v == Or(c, orig);
      var k :| 0 <= k < |inp.combs| && inp.combs[k] == c;
      ModSmall(k, |inp.combs|);
      rolls := Rolls(false, true, k);
    }
  }

  /** In random mode the results are exactly the dictionary values, the original, and the original with
      one of the bit combinations added. */
  lemma {:induction false} RandomModeOutcomes(inp: Input, orig: Word, v: Word)
    ensures (exists rolls ::
               && (Picks(RandomMode, rolls) ==> inp.dict != [])
               && FeedData(inp, RandomMode, orig, rolls) == v) <==> Possible(inp, orig, v)
  {
    hide Or, Value, FeedData;
    forall rolls | Picks(RandomMode, rolls) ==> inp.dict != []
      ensures Possible(inp, orig, FeedData(inp, RandomMode, orig, rolls))
    {
      RollIsPossible(inp, orig, rolls);
    }
    if Possible(inp, orig, v) {
      var rolls := RollFor(inp, orig, v);
    }
  }

  lemma {:induction false} InsertTwo(s: seq<Word>, vals: seq<Word>, a: Word, b: Word)
    ensures InsertAll(s, vals + [a, b]) == Insert(Insert(InsertAll(s, vals), a), b)
  {
    hide Insert;
    assert (vals + [a, b])[..|vals| + 1] == vals + [a];
    assert (vals + [a])[..|vals|] == vals;
  }

  /** `HWInput` with its vectors and its set, updated in place. */
  class HwInput {
    var bitsVec: seq<Word>
    var magicValues: seq<Word>
    var rangeSpecials: seq<Word>
    var importantBits: Word
    var bitsCombSet: seq<Word>
    var bitsCombinations: seq<Word>
    var dict: seq<Word>

    ghost function View(): Input
      reads this
    {
      Input(bitsVec, magicValues, rangeSpecials, importantBits, bitsCombSet, bitsCombinations, dict)
    }

    constructor (bits: seq<Word>, magics: seq<Word>, specials: seq<Word>)
      ensures exists u :: View() == GenDict(Input(bits, magics, specials, u, [], [], []))
      ensures Built(View())
    {
      bitsVec, magicValues, rangeSpecials := bits, magics, specials;
      importantBits, bitsCombSet, bitsCombinations, dict := 0, [], [], [];
      new;
      ghost var blank := View();
      GenDictInPlace();
      hide GenDict, Built;
      FirstBuild(blank);
    }

    method GenerateBitCombs()
      modifies this
      ensures View() == GenCombs(old(View()))
    {
      hide PowerSet, Or, Not, Insert;
      importantBits := 0;
      if |bitsVec| == 0 {
        return;
      }
      UniteMasks();
      if |bitsVec| > 4 {
        bitsCombinations := bitsCombinations + [importantBits] + bitsVec + [0, Not(importantBits)];
        return;
      }
      var e := new Enumerator();
      e.FillPowerSet(|bitsVec|);
      assert e.res == PowerSet(|bitsVec|, |bitsVec|);
      InsertPicks(e.res);
      ghost var vals := PickValues(bitsVec, e.res);
      bitsCombSet := Insert(bitsCombSet, 0);
      bitsCombSet := Insert(bitsCombSet, Not(importantBits));
      InsertTwo(old(bitsCombSet), vals, 0, Not(importantBits));
      bitsCombinations := bitsCombinations + bitsCombSet;
    }

    method UniteMasks()
      requires importantBits == 0
      modifies this`importantBits
      ensures importantBits == Union(bitsVec)
    {
      for i := 0 to |bitsVec|
        invariant importantBits == Union(bitsVec[..i])
      {
        assert bitsVec[..i + 1][..i] == bitsVec[..i];
        importantBits := Or(importantBits, bitsVec[i]);
      }
      assert bitsVec[..|bitsVec|] == bitsVec;
    }

    method InsertPicks(combs: seq<seq<nat>>)
      modifies this`bitsCombSet
      ensures bitsCombSet == InsertAll(old(bitsCombSet), PickValues(bitsVec, combs))
    {
      hide Insert, Or;
      for i := 0 to |combs|
        invariant bitsCombSet == InsertAll(old(bitsCombSet), PickValues(bitsVec, combs[..i]))
      {
        var val := OrTogether(combs[i]);
        bitsCombSet := Insert(bitsCombSet, val);
        ghost var before := PickValues(bitsVec, combs[..i]);
        assert combs[..i + 1][..i] == combs[..i];
        assert PickValues(bitsVec, combs[..i + 1]) == before + [val];
        assert (before + [val])[..|before|] == before;
      }
      assert combs[..|combs|] == combs;
    }

    method OrTogether(comb: seq<nat>) returns (val: Word)
      ensures val == OrOf(bitsVec, comb)
    {
      val := 0;
      for i := 0 to |comb|
        invariant val == OrOf(bitsVec, comb[..i])
      {
        assert comb[..i + 1][..i] == comb[..i];
        val := Or(val, MaskAt(bitsVec, comb[i]));
      }
      assert comb[..|comb|] == comb;
    }

    /** `genDict`, which appends: a second call repeats every entry. */
    method GenDictInPlace()
      modifies this
      ensures View() == GenDict(old(View()))
    {
      hide GenCombs;
      KeepsLists(View());
      GenerateBitCombs();
      dict := dict + magicValues;
      dict := dict + bitsCombinations;
      dict := dict + rangeSpecials;
    }
  }
}
