/** Registers, set/clear masks on them, and the merging of masks. */
module RegMasks {
  import opened Wrappers

  /** A reg<> type. Two registers are the same type when all parameters agree. */
  datatype Reg = Reg(addr: nat, reset: bv32)

  datatype Mask = Mask(reg: Reg, setMask: bv32, clearMask: bv32)

  function Or(x: bv32, y: bv32): bv32 {
    x | y
  }

  function And(x: bv32, y: bv32): bv32 {
    x & y
  }

  function AndNot(x: bv32, y: bv32): bv32 {
    x & !y
  }

  predicate Covers(clearMask: bv32, setMask: bv32) {
    setMask | clearMask == clearMask
  }

  /** regmask<>: its first static_assert is that the clear mask covers the set mask. */
  type RegMask = m: Mask | Covers(m.clearMask, m.setMask) witness Mask(Reg(0, 0), 0, 0)

  function Neutral(reg: Reg): RegMask {
    Mask(reg, 0, 0)
  }

  function CroppedClearMask(m: RegMask): bv32 {
    AndNot(m.clearMask, m.setMask)
  }

  /** Where both masks speak of a bit, they want the same value. This is the pair of
      static_asserts of regmask<>::merge<>, besides the one that the registers agree. */
  predicate Compatible(a: RegMask, b: RegMask) {
    Agree(a.setMask, a.clearMask, b.setMask, b.clearMask)
  }

  predicate Agree(s: bv32, c: bv32, s': bv32, c': bv32) {
    (s' & c) & !s == 0 && (s & c') & !s' == 0
  }

  /** regmask<>::merge<>; None stands for a failing static_assert. */
  function Merge(a: RegMask, b: RegMask): Option<RegMask> {
    if a.reg == b.reg && Compatible(a, b) then
      UnionCovers(a, b);
      Some(Mask(a.reg, Or(a.setMask, b.setMask), Or(a.clearMask, b.clearMask)))
    else None
  }

  lemma UnionCovers(a: RegMask, b: RegMask)
    ensures Covers(Or(a.clearMask, b.clearMask), Or(a.setMask, b.setMask))
  {
  }

  /** merged_regmask<T0, Tp...>: merges the head with the merged rest. */
  function MergeAll(ms: seq<RegMask>): Option<RegMask>
    requires ms != []
  {
    if |ms| == 1 then Some(ms[0])
    else
      match MergeAll(ms[1..])
      case None => None
      case Some(rest) => Merge(ms[0], rest)
  }

  /** What applying a mask makes of a register value. */
  function Assign(v: bv32, m: RegMask): bv32 {
    AssignBits(v, m.setMask, m.clearMask)
  }

  function AssignBits(v: bv32, s: bv32, c: bv32): bv32 {
    AndNot(v, c) | s
  }

  /** Bits of the set mask are set, the other bits of the clear mask are cleared, the rest is kept. */
  lemma AssignedBits(v: bv32, m: RegMask, bits: bv32)
    ensures And(bits, m.setMask) == bits ==> And(Assign(v, m), bits) == bits
    ensures And(bits, CroppedClearMask(m)) == bits ==> And(Assign(v, m), bits) == 0
    ensures And(bits, m.clearMask) == 0 ==> And(Assign(v, m), bits) == And(v, bits)
  {
    hide AssignBits, Covers, And, AndNot;
    if And(bits, m.setMask) == bits {
      SetBitsAssigned(v, m.setMask, m.clearMask, bits);
    }
    if And(bits, CroppedClearMask(m)) == bits {
      ClearBitsAssigned(v, m.setMask, m.clearMask, bits);
    }
    if And(bits, m.clearMask) == 0 {
      OtherBitsAssigned(v, m.setMask, m.clearMask, bits);
    }
  }

  lemma SetBitsAssigned(v: bv32, s: bv32, c: bv32, bits: bv32)
    requires And(bits, s) == bits
    ensures And(AssignBits(v, s, c), bits) == bits
  {
  }

  lemma ClearBitsAssigned(v: bv32, s: bv32, c: bv32, bits: bv32)
    requires And(bits, AndNot(c, s)) == bits
    ensures And(AssignBits(v, s, c), bits) == 0
  {
  }

  lemma OtherBitsAssigned(v: bv32, s: bv32, c: bv32, bits: bv32)
    requires And(bits, c) == 0 && Covers(c, s)
    ensures And(AssignBits(v, s, c), bits) == And(v, bits)
  {
  }

  /** A register narrower than 32 bits stays within its width. */
  lemma AssignKeepsWidth(v: bv32, m: RegMask, width: bv32)
    requires Within(v, width) && Within(m.setMask, width)
    ensures Within(Assign(v, m), width)
  {
  }

  lemma CroppedAssign(v: bv32, m: RegMask)
    ensures AssignBits(v, m.setMask, CroppedClearMask(m)) == Assign(v, m)
  {
  }

  /** The merge check accepts exactly the pairs of masks whose order does not matter. */
  lemma CompatibleIffOrderIrrelevant(a: RegMask, b: RegMask)
    ensures Compatible(a, b) <==> forall v :: Assign(Assign(v, a), b) == Assign(Assign(v, b), a)
  {
    hide Agree, Assign;
    if Compatible(a, b) {
      forall v ensures Assign(Assign(v, a), b) == Assign(Assign(v, b), a) {
        CompatibleCommutes(v, a, b);
      }
    }
    if Assign(Assign(0, a), b) == Assign(Assign(0, b), a) {
      OrderShowsOnZero(a, b);
    }
  }

  lemma CompatibleCommutes(v: bv32, a: RegMask, b: RegMask)
    requires Compatible(a, b)
    ensures Assign(Assign(v, a), b) == Assign(Assign(v, b), a)
  {
    hide Or, Agree, Assign;
    CompatibleSymmetric(a, b);
    AssignTwice(v, a, b);
    AssignTwice(v, b, a);
    OrCommutes(a.setMask, b.setMask);
    OrCommutes(a.clearMask, b.clearMask);
  }

  lemma OrderShowsOnZero(a: RegMask, b: RegMask)
    requires Assign(Assign(0, a), b) == Assign(Assign(0, b), a)
    ensures Compatible(a, b)
  {
    ZeroOrder(a.setMask, a.clearMask, b.setMask, b.clearMask);
  }

  lemma ZeroOrder(s: bv32, c: bv32, s': bv32, c': bv32)
    requires Covers(c, s) && Covers(c', s')
    requires AssignBits(AssignBits(0, s, c), s', c') == AssignBits(AssignBits(0, s', c'), s, c)
    ensures Agree(s, c, s', c')
  {
  }

  /** Merged masks act like their parts, one after the other. */
  lemma AssignTwice(v: bv32, a: RegMask, b: RegMask)
    requires Compatible(a, b)
    ensures Assign(Assign(v, a), b) == AssignBits(v, Or(a.setMask, b.setMask), Or(a.clearMask, b.clearMask))
  {
  }

  lemma AssignMerged(v: bv32, a: RegMask, b: RegMask, m: RegMask)
    requires Merge(a, b) == Some(m)
    ensures Assign(Assign(v, a), b) == Assign(v, m)
  {
    hide Or, Agree, AssignBits;
    AssignTwice(v, a, b);
  }

  lemma CompatibleWithMerged(a: RegMask, x: RegMask, y: RegMask, r: RegMask)
    requires Merge(x, y) == Some(r)
    ensures Compatible(a, r) <==> Compatible(a, x) && Compatible(a, y)
  {
    if Compatible(a, r) {
      CompatibleWithParts(a, x, y, r);
    }
    if Compatible(a, x) && Compatible(a, y) {
      CompatibleWithUnion(a, x, y, r);
    }
  }

  lemma CompatibleWithParts(a: RegMask, x: RegMask, y: RegMask, r: RegMask)
    requires Merge(x, y) == Some(r) && Compatible(a, r)
    ensures Compatible(a, x) && Compatible(a, y)
  {
    hide Agree, Covers, Or;
    PartsAgree(a.setMask, a.clearMask, x.setMask, x.clearMask, y.setMask, y.clearMask);
  }

  lemma PartsAgree(s: bv32, c: bv32, xs: bv32, xc: bv32, ys: bv32, yc: bv32)
    requires Covers(c, s) && Covers(xc, xs) && Covers(yc, ys) && Agree(xs, xc, ys, yc)
    requires Agree(s, c, Or(xs, ys), Or(xc, yc))
    ensures Agree(s, c, xs, xc) && Agree(s, c, ys, yc)
  {
    hide Agree, Covers, Or;
    PartAgrees(s, c, xs, xc, ys, yc);
    OrCommutes(xs, ys);
    OrCommutes(xc, yc);
    AgreeCommutes(xs, xc, ys, yc);
    PartAgrees(s, c, ys, yc, xs, xc);
  }

  lemma PartAgrees(s: bv32, c: bv32, xs: bv32, xc: bv32, ys: bv32, yc: bv32)
    requires Covers(c, s) && Covers(xc, xs) && Covers(yc, ys) && Agree(xs, xc, ys, yc)
    requires Agree(s, c, Or(xs, ys), Or(xc, yc))
    ensures Agree(s, c, xs, xc)
  {
  }

  lemma CompatibleReflexive(a: RegMask)
    ensures Compatible(a, a)
  {
  }

  lemma CompatibleSymmetric(a: RegMask, b: RegMask)
    ensures Compatible(a, b) == Compatible(b, a)
  {
  }

  lemma AgreeCommutes(s: bv32, c: bv32, s': bv32, c': bv32)
    ensures Agree(s, c, s', c') == Agree(s', c', s, c)
  {
  }

  lemma OrCommutes(x: bv32, y: bv32)
    ensures Or(x, y) == Or(y, x)
  {
  }

  lemma CompatibleWithUnion(a: RegMask, x: RegMask, y: RegMask, r: RegMask)
    requires Merge(x, y) == Some(r) && Compatible(a, x) && Compatible(a, y)
    ensures Compatible(a, r)
  {
    hide Agree, Covers, Or;
    UnionAgrees(a.setMask, a.clearMask, x.setMask, x.clearMask, y.setMask, y.clearMask);
  }

  lemma UnionAgrees(s: bv32, c: bv32, xs: bv32, xc: bv32, ys: bv32, yc: bv32)
    requires Agree(s, c, xs, xc) && Agree(s, c, ys, yc)
    ensures Agree(s, c, Or(xs, ys), Or(xc, yc))
  {
    UnionSets(s, c, xs, ys);
    UnionClears(s, xs, xc, ys, yc);
  }

  lemma UnionSets(s: bv32, c: bv32, xs: bv32, ys: bv32)
    requires (xs & c) & !s == 0 && (ys & c) & !s == 0
    ensures (Or(xs, ys) & c) & !s == 0
  {
  }

  lemma UnionClears(s: bv32, xs: bv32, xc: bv32, ys: bv32, yc: bv32)
    requires (s & xc) & !xs == 0 && (s & yc) & !ys == 0
    ensures (s & Or(xc, yc)) & !Or(xs, ys) == 0
  {
  }

  // ---------- merging a whole list ----------

  ghost predicate Mergeable(ms: seq<RegMask>) {
    forall i, j :: 0 <= i < |ms| && 0 <= j < |ms| ==> ms[i].reg == ms[j].reg && Compatible(ms[i], ms[j])
  }

  lemma {:induction false} CompatibleWithAll(a: RegMask, ms: seq<RegMask>)
    requires ms != [] && MergeAll(ms).Some?
    ensures Compatible(a, MergeAll(ms).value) <==> forall j :: 0 <= j < |ms| ==> Compatible(a, ms[j])
    ensures forall j :: 0 <= j < |ms| ==> ms[j].reg == MergeAll(ms).value.reg
  {
    if |ms| > 1 {
      CompatibleWithAll(a, ms[1..]);
      CompatibleWithMerged(a, ms[0], MergeAll(ms[1..]).value, MergeAll(ms).value);
      assert forall j :: 1 <= j < |ms| ==> ms[j] == ms[1..][j - 1];
    }
  }

  /** The fold of binary merges is defined exactly when all elements are pairwise compatible. */
  lemma {:induction false} MergeAllDefinedIff(ms: seq<RegMask>)
    requires ms != []
    ensures MergeAll(ms).Some? <==> Mergeable(ms)
  {
    hide Agree, Or;
    CompatibleReflexive(ms[0]);
    if |ms| > 1 {
      var rest := ms[1..];
      MergeAllDefinedIff(rest);
      assert forall j :: 1 <= j < |ms| ==> ms[j] == rest[j - 1];
      assert forall j :: 0 <= j < |rest| ==> rest[j] == ms[j + 1];
      if MergeAll(rest).Some? {
        CompatibleWithAll(ms[0], rest);
        MergeableCons(ms);
      }
    }
  }

  lemma MergeableCons(ms: seq<RegMask>)
    requires |ms| > 1 && Mergeable(ms[1..])
    ensures Mergeable(ms) <==>
            ms[0].reg == ms[1].reg && forall j :: 0 <= j < |ms[1..]| ==> Compatible(ms[0], ms[1..][j])
  {
    hide Compatible;
    var rest := ms[1..];
    CompatibleReflexive(ms[0]);
    forall j | 1 <= j < |ms| ensures ms[j] == rest[j - 1] && Compatible(ms[0], ms[j]) == Compatible(ms[j], ms[0]) {
      CompatibleSymmetric(ms[0], ms[j]);
    }
    assert forall j :: 0 <= j < |rest| ==> rest[j] == ms[j + 1];
  }

  /** The union of two bit sets is the least one that covers both. */
  predicate Within(x: bv32, y: bv32) {
    x | y == y
  }

  predicate AllWithin(ms: seq<RegMask>, s: bv32, c: bv32) {
    ms == [] || (Within(ms[0].setMask, s) && Within(ms[0].clearMask, c) && AllWithin(ms[1..], s, c))
  }

  lemma {:induction false} AllWithinContains(ms: seq<RegMask>, s: bv32, c: bv32)
    ensures AllWithin(ms, s, c) <==> forall m :: m in ms ==> Within(m.setMask, s) && Within(m.clearMask, c)
  {
    hide Within, Covers;
    if ms != [] {
      AllWithinContains(ms[1..], s, c);
      assert ms == [ms[0]] + ms[1..];
    }
  }

  /** The merged mask has exactly the bits of its parts. */
  lemma {:induction false} MergeAllIsLeast(ms: seq<RegMask>, s: bv32, c: bv32)
    requires ms != [] && MergeAll(ms).Some?
    ensures var m := MergeAll(ms).value;
            Within(m.setMask, s) && Within(m.clearMask, c) <==> AllWithin(ms, s, c)
  {
    hide Within, Agree, Covers, Or;
    if |ms| == 1 {
      assert AllWithin(ms[1..], s, c);
    } else {
      MergeAllIsLeast(ms[1..], s, c);
      var x, y := ms[0], MergeAll(ms[1..]).value;
      UnionIsLeast(x.setMask, y.setMask, s);
      UnionIsLeast(x.clearMask, y.clearMask, c);
    }
  }

  lemma UnionIsLeast(x: bv32, y: bv32, z: bv32)
    ensures Within(Or(x, y), z) <==> Within(x, z) && Within(y, z)
  {
    if Within(Or(x, y), z) {
      PartsWithin(x, y, z);
    }
    if Within(x, z) && Within(y, z) {
      UnionWithin(x, y, z);
    }
  }

  lemma PartsWithin(x: bv32, y: bv32, z: bv32)
    requires Within(Or(x, y), z)
    ensures Within(x, z) && Within(y, z)
  {
  }

  lemma UnionWithin(x: bv32, y: bv32, z: bv32)
    requires Within(x, z) && Within(y, z)
    ensures Within(Or(x, y), z)
  {
  }

  lemma WithinAntisymmetric(x: bv32, y: bv32)
    requires Within(x, y) && Within(y, x)
    ensures x == y
  {
  }

  /** Order and repetition do not matter: lists with the same elements merge to the same result. */
  lemma MergeAllDependsOnElements(ms: seq<RegMask>, ns: seq<RegMask>)
    requires ms != [] && ns != [] && forall m :: m in ms <==> m in ns
    ensures MergeAll(ms) == MergeAll(ns)
  {
    MergeAllDefinedIff(ms);
    MergeAllDefinedIff(ns);
    if Mergeable(ms) {
      MergeableSubset(ns, ms);
    }
    if Mergeable(ns) {
      MergeableSubset(ms, ns);
      MergeAllWithin(ms, ns);
      MergeAllWithin(ns, ms);
      var m, n := MergeAll(ms).value, MergeAll(ns).value;
      WithinAntisymmetric(m.setMask, n.setMask);
      WithinAntisymmetric(m.clearMask, n.clearMask);
    }
  }

  lemma MergeableSubset(ms: seq<RegMask>, ns: seq<RegMask>)
    requires Mergeable(ns) && forall m :: m in ms ==> m in ns
    ensures Mergeable(ms)
  {
    forall i, j | 0 <= i < |ms| && 0 <= j < |ms|
      ensures ms[i].reg == ms[j].reg && Compatible(ms[i], ms[j])
    {
      assert ms[i] in ns && ms[j] in ns;
      var i', j' :| 0 <= i' < |ns| && 0 <= j' < |ns| && ns[i'] == ms[i] && ns[j'] == ms[j];
    }
  }

  lemma MergeAllWithin(ms: seq<RegMask>, ns: seq<RegMask>)
    requires ms != [] && ns != [] && MergeAll(ms).Some? && MergeAll(ns).Some?
    requires forall m :: m in ms ==> m in ns
    ensures MergeAll(ms).value.reg == MergeAll(ns).value.reg
    ensures Within(MergeAll(ms).value.setMask, MergeAll(ns).value.setMask)
    ensures Within(MergeAll(ms).value.clearMask, MergeAll(ns).value.clearMask)
  {
    var n := MergeAll(ns).value;
    assert Within(n.setMask, n.setMask) && Within(n.clearMask, n.clearMask);
    MergeAllIsLeast(ns, n.setMask, n.clearMask);
    AllWithinContains(ns, n.setMask, n.clearMask);
    AllWithinContains(ms, n.setMask, n.clearMask);
    MergeAllIsLeast(ms, n.setMask, n.clearMask);
    CompatibleWithAll(n, ms);
    CompatibleWithAll(n, ns);
    assert ms[0] in ns;
  }

  /** The neutral mask is the identity of merging. */
  lemma NeutralIsIdentity(m: RegMask)
    ensures Merge(m, Neutral(m.reg)) == Some(m) == Merge(Neutral(m.reg), m)
  {
    ZeroIsNeutral(m.setMask);
    ZeroIsNeutral(m.clearMask);
    ZeroAgrees(m.setMask, m.clearMask);
  }

  lemma ZeroIsNeutral(x: bv32)
    ensures x | 0 == x == 0 | x
  {
  }

  lemma ZeroAgrees(s: bv32, c: bv32)
    ensures Agree(s, c, 0, 0) && Agree(0, 0, s, c)
  {
  }
}
