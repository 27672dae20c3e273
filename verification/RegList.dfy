/** reglist<>: the register configuration compiler. A list of masks is grouped by register, each
    group is merged to one mask, and the distinct merged masks are applied. */
module RegLists {
  import opened TypeLists
  import opened Wrappers
  import opened RegMasks

  // ---------- compile time ----------

  predicate OnReg(r: Reg, m: RegMask) {
    m.reg == r
  }

  /** list::filter< filter_reg_type<r> > */
  function OfReg(ms: seq<RegMask>, r: Reg): seq<RegMask> {
    Filter((m: RegMask) => OnReg(r, m), ms)
  }

  /** map_merged_regmask for an element on register r. */
  function Merged(ms: seq<RegMask>, r: Reg): Option<RegMask>
    requires exists m :: m in ms && m.reg == r
  {
    OfRegContains(ms, r);
    MergeAll(OfReg(ms, r))
  }

  lemma OfRegContains(ms: seq<RegMask>, r: Reg)
    ensures forall m :: m in OfReg(ms, r) <==> m in ms && m.reg == r
  {
    forall m ensures m in OfReg(ms, r) <==> m in ms && m.reg == r {
      FilterContains((m: RegMask) => OnReg(r, m), ms, m);
    }
  }

  lemma GroupEmptyIff(ms: seq<RegMask>, r: Reg)
    ensures OfReg(ms, r) == [] <==> forall m :: m in ms ==> m.reg != r
  {
    OfRegContains(ms, r);
    assert OfReg(ms, r) != [] ==> OfReg(ms, r)[0] in OfReg(ms, r);
  }

  /** list::map< map_merged_regmask >, the elements still to be mapped being "rest". */
  function MapMerged(rest: seq<RegMask>, ms: seq<RegMask>): Option<seq<RegMask>>
    requires forall m :: m in rest ==> m in ms
  {
    if rest == [] then Some([])
    else
      match Merged(ms, rest[0].reg)
      case None => None
      case Some(m) =>
        match MapMerged(rest[1..], ms)
        case None => None
        case Some(tail) => Some([m] + tail)
  }

  /** reglist::unique_merged_list; None stands for a failing static_assert in some merge. */
  function Compile(ms: seq<RegMask>): Option<seq<RegMask>> {
    match MapMerged(ms, ms)
    case None => None
    case Some(merged) => Some(MakeUniqueList([], merged))
  }

  ghost predicate NoConflict(ms: seq<RegMask>) {
    forall a, b :: a in ms && b in ms && a.reg == b.reg ==> Compatible(a, b)
  }

  lemma MergedDefinedIff(ms: seq<RegMask>, r: Reg)
    requires exists m :: m in ms && m.reg == r
    ensures Merged(ms, r).Some? <==> forall a, b :: a in ms && b in ms && a.reg == r == b.reg ==> Compatible(a, b)
    ensures Merged(ms, r).Some? ==> Merged(ms, r).value.reg == r
  {
    hide Compatible;
    var group := OfReg(ms, r);
    OfRegContains(ms, r);
    MergeAllDefinedIff(group);
    MergeableIffAllPairs(group);
    if MergeAll(group).Some? {
      CompatibleWithAll(group[0], group);
    }
  }

  lemma MergeableIffAllPairs(ms: seq<RegMask>)
    ensures Mergeable(ms) <==> forall a, b :: a in ms && b in ms ==> a.reg == b.reg && Compatible(a, b)
  {
    hide Compatible;
    if Mergeable(ms) {
      forall a, b | a in ms && b in ms ensures a.reg == b.reg && Compatible(a, b) {
        var i, j :| 0 <= i < |ms| && 0 <= j < |ms| && ms[i] == a && ms[j] == b;
      }
    }
  }

  lemma {:induction false} MapMergedShape(rest: seq<RegMask>, ms: seq<RegMask>)
    requires forall m :: m in rest ==> m in ms
    ensures MapMerged(rest, ms).Some? <==> forall m :: m in rest ==> Merged(ms, m.reg).Some?
    ensures MapMerged(rest, ms).Some? ==>
              var merged := MapMerged(rest, ms).value;
              && (forall u :: u in merged ==> exists m :: m in rest && Merged(ms, m.reg) == Some(u))
              && (forall m :: m in rest ==> Merged(ms, m.reg).Some? && Merged(ms, m.reg).value in merged)
  {
    hide Merged;
    if rest != [] {
      MapMergedShape(rest[1..], ms);
      assert rest == [rest[0]] + rest[1..];
    }
  }

  /** The compiler accepts a list exactly when no two of its masks conflict. */
  lemma CompileDefinedIff(ms: seq<RegMask>)
    ensures Compile(ms).Some? <==> NoConflict(ms)
  {
    hide Compatible, Merged;
    MapMergedShape(ms, ms);
    forall m | m in ms ensures Merged(ms, m.reg).Some? <==>
        forall a, b :: a in ms && b in ms && a.reg == m.reg == b.reg ==> Compatible(a, b) {
      MergedDefinedIff(ms, m.reg);
    }
  }

  /** Its output has one mask for every register of the list, and no register twice. */
  lemma CompiledShape(ms: seq<RegMask>)
    requires Compile(ms).Some?
    ensures var us := Compile(ms).value;
            && (forall u :: u in us ==> (exists m :: m in ms && m.reg == u.reg) && Merged(ms, u.reg) == Some(u))
            && (forall m :: m in ms ==> exists u :: u in us && u.reg == m.reg)
            && (forall i, j :: 0 <= i < j < |us| ==> us[i].reg != us[j].reg)
  {
    hide Merged;
    var merged, us := MapMerged(ms, ms).value, Compile(ms).value;
    MapMergedShape(ms, ms);
    UniqueListIsFirstOccurrences(merged);
    FirstOccurrencesProperties(merged);
    forall u | u in us ensures (exists m :: m in ms && m.reg == u.reg) && Merged(ms, u.reg) == Some(u) {
      var m :| m in ms && Merged(ms, m.reg) == Some(u);
      MergedDefinedIff(ms, m.reg);
    }
    forall m | m in ms ensures exists u :: u in us && u.reg == m.reg {
      MergedDefinedIff(ms, m.reg);
      assert Merged(ms, m.reg).value in us;
    }
    forall i, j | 0 <= i < j < |us| ensures us[i].reg != us[j].reg {
      assert us[i] in us && us[j] in us;
    }
  }

  /** The registers of some masks, in order. */
  function Registers(ms: seq<RegMask>): seq<Reg> {
    if ms == [] then [] else [ms[0].reg] + Registers(ms[1..])
  }

  lemma {:induction false} RegistersAppend(a: seq<RegMask>, b: seq<RegMask>)
    ensures Registers(a + b) == Registers(a) + Registers(b)
    decreases |a|
  {
    if a == [] {
      assert a + b == b;
    } else {
      assert (a + b)[1..] == a[1..] + b;
      RegistersAppend(a[1..], b);
    }
  }

  lemma {:induction false} MapMergedRegisters(rest: seq<RegMask>, ms: seq<RegMask>)
    requires forall m :: m in rest ==> m in ms
    requires MapMerged(rest, ms).Some?
    ensures Registers(MapMerged(rest, ms).value) == Registers(rest)
  {
    hide Merged;
    if rest != [] {
      MergedDefinedIff(ms, rest[0].reg);
      MapMergedRegisters(rest[1..], ms);
    }
  }

  lemma {:induction false} RegistersContain(ms: seq<RegMask>, r: Reg)
    ensures r in Registers(ms) <==> exists m :: m in ms && m.reg == r
  {
    if ms != [] {
      RegistersContain(ms[1..], r);
      assert ms == [ms[0]] + ms[1..];
    }
  }

  /** Masks of which no two differ on one register occur first where their registers do. */
  lemma {:induction false} FirstRegisters(us: seq<RegMask>)
    requires forall u, w :: u in us && w in us && u.reg == w.reg ==> u == w
    ensures Registers(FirstOccurrences(us)) == FirstOccurrences(Registers(us))
  {
    if us != [] {
      var init, last := us[..|us| - 1], us[|us| - 1];
      assert us == init + [last];
      FirstRegisters(init);
      RegistersAppend(init, [last]);
      RegistersOfOne(last);
      RegistersAppend(FirstOccurrences(init), [last]);
      RegistersContain(init, last.reg);
      FirstOccurrencesOneMore(init, last);
      FirstOccurrencesProperties(init);
      FirstOccurrencesOneMore(Registers(init), last.reg);
      FirstOccurrencesProperties(Registers(init));
    }
  }

  lemma RegistersOfOne(m: RegMask)
    ensures Registers([m]) == [m.reg]
  {
    assert [m][1..] == [];
  }

  /** The output is in the order in which the registers occur first in the list. */
  lemma CompiledOrder(ms: seq<RegMask>)
    requires Compile(ms).Some?
    ensures Registers(Compile(ms).value) == FirstOccurrences(Registers(ms))
  {
    hide Merged, MakeUniqueList, FirstOccurrences, Registers;
    var merged := MapMerged(ms, ms).value;
    MapMergedShape(ms, ms);
    MapMergedRegisters(ms, ms);
    UniqueListIsFirstOccurrences<RegMask>(merged);
    forall u, w | u in merged && w in merged && u.reg == w.reg ensures u == w {
      var m :| m in ms && Merged(ms, m.reg) == Some(u);
      var n :| n in ms && Merged(ms, n.reg) == Some(w);
      MergedDefinedIff(ms, m.reg);
      MergedDefinedIff(ms, n.reg);
    }
    FirstRegisters(merged);
  }

  // ---------- effects ----------

  /** The values of the registers written so far; the others still hold their reset value. */
  type File = map<Reg, bv32>

  function Load(f: File, r: Reg): bv32 {
    if r in f then f[r] else r.reset
  }

  /** The effect of regmask<>::set(). */
  function SetOne(f: File, m: RegMask): File {
    if m.setMask == 0 && m.clearMask == 0 then f else f[m.reg := Assign(Load(f, m.reg), m)]
  }

  function SetAll(f: File, ms: seq<RegMask>): File
    decreases |ms|
  {
    if ms == [] then f else SetAll(SetOne(f, ms[0]), ms[1..])
  }

  /** Assigning masks to a value, one after the other. */
  function AssignAll(v: bv32, ms: seq<RegMask>): bv32
    decreases |ms|
  {
    if ms == [] then v else AssignAll(Assign(v, ms[0]), ms[1..])
  }

  lemma AssignNeutral(v: bv32, m: RegMask)
    requires m.setMask == 0 && m.clearMask == 0
    ensures Assign(v, m) == v
  {
  }

  /** Where a list of masks leaves a register depends on the masks of that register only. */
  lemma {:induction false} SetAllAt(f: File, ms: seq<RegMask>, r: Reg)
    ensures Load(SetAll(f, ms), r) == AssignAll(Load(f, r), OfReg(ms, r))
    decreases |ms|
  {
    hide Assign;
    if ms != [] {
      var m := ms[0];
      SetAllAt(SetOne(f, m), ms[1..], r);
      FilterCons((m: RegMask) => OnReg(r, m), m, ms[1..]);
      assert [m] + ms[1..] == ms;
      if m.setMask == 0 && m.clearMask == 0 {
        AssignNeutral(Load(f, r), m);
      }
      if m.reg == r {
        assert OfReg(ms, r) == [m] + OfReg(ms[1..], r);
      } else {
        assert OfReg(ms, r) == OfReg(ms[1..], r);
      }
    }
  }

  lemma UnlistedIsUntouched(ms: seq<RegMask>, f: File, r: Reg)
    requires forall m :: m in ms ==> m.reg != r
    ensures Load(SetAll(f, ms), r) == Load(f, r)
  {
    SetAllAt(f, ms, r);
    GroupEmptyIff(ms, r);
  }

  /** A merged mask acts like its parts one after the other. */
  /** Bits that no mask on the register speaks of are kept. */
  lemma {:induction false} OtherBitsKept(f: File, ms: seq<RegMask>, r: Reg, bits: bv32)
    requires forall m :: m in ms && m.reg == r ==> And(bits, m.clearMask) == 0
    ensures And(Load(SetAll(f, ms), r), bits) == And(Load(f, r), bits)
    decreases |ms|
  {
    hide Assign, And;
    if ms != [] {
      assert ms[0] in ms;
      AssignedBits(Load(f, r), ms[0], bits);
      OtherBitsKept(SetOne(f, ms[0]), ms[1..], r, bits);
    }
  }

  /** Masks are applied in list order: of the masks that speak of some bits, the last one decides. */
  lemma {:induction false} LastMaskDecides(f: File, ms: seq<RegMask>, k: nat, bits: bv32)
    requires k < |ms| && bits != 0 && And(bits, ms[k].clearMask) == bits
    requires forall j :: k < j < |ms| && ms[j].reg == ms[k].reg ==> And(bits, ms[j].clearMask) == 0
    ensures And(Load(SetAll(f, ms), ms[k].reg), bits) == And(ms[k].setMask, bits)
    decreases |ms|
  {
    hide Assign, And;
    if k > 0 {
      LastMaskDecides(SetOne(f, ms[0]), ms[1..], k - 1, bits);
    } else {
      FieldDecides(Load(f, ms[0].reg), ms[0], bits);
      OtherBitsKept(SetOne(f, ms[0]), ms[1..], ms[0].reg, bits);
    }
  }

  lemma FieldDecides(v: bv32, m: RegMask, bits: bv32)
    requires bits != 0 && And(bits, m.clearMask) == bits
    ensures And(Assign(v, m), bits) == And(m.setMask, bits) && m.clearMask != 0
  {
  }

  lemma {:induction false} MergedActsLikeParts(v: bv32, ms: seq<RegMask>)
    requires ms != [] && MergeAll(ms).Some?
    ensures AssignAll(v, ms) == Assign(v, MergeAll(ms).value)
    decreases |ms|
  {
    hide Assign, Or, Agree;
    if |ms| == 1 {
      assert AssignAll(Assign(v, ms[0]), ms[1..]) == Assign(v, ms[0]);
    } else {
      MergedActsLikeParts(Assign(v, ms[0]), ms[1..]);
      AssignMerged(v, ms[0], MergeAll(ms[1..]).value, MergeAll(ms).value);
    }
  }

  lemma {:induction false} GroupOfCompiled(us: seq<RegMask>, u: RegMask)
    requires u in us && forall i, j :: 0 <= i < j < |us| ==> us[i].reg != us[j].reg
    ensures OfReg(us, u.reg) == [u]
  {
    FilterCons((m: RegMask) => OnReg(u.reg, m), us[0], us[1..]);
    assert us == [us[0]] + us[1..];
    if us[0] == u {
      GroupEmptyIff(us[1..], u.reg);
    } else {
      GroupOfCompiled(us[1..], u);
    }
  }

  /** What the compiled list does to one register: the merged mask of its group, or nothing. */
  lemma CompiledAt(ms: seq<RegMask>, v: bv32, r: Reg)
    requires Compile(ms).Some?
    ensures var group := OfReg(Compile(ms).value, r);
            if exists m :: m in ms && m.reg == r
            then Merged(ms, r).Some? && group == [Merged(ms, r).value]
            else group == [] && OfReg(ms, r) == []
  {
    hide Merged;
    var us := Compile(ms).value;
    CompiledShape(ms);
    if m :| m in ms && m.reg == r {
      var u :| u in us && u.reg == r;
      GroupOfCompiled(us, u);
    } else {
      GroupEmptyIff(us, r);
      GroupEmptyIff(ms, r);
    }
  }

  /** Main result: applying the compiled list leaves every register as applying all masks of the
      list one at a time, in order, does. */
  lemma SetPreservesMeaning(ms: seq<RegMask>, f: File, r: Reg)
    requires Compile(ms).Some?
    ensures Load(SetAll(f, Compile(ms).value), r) == Load(SetAll(f, ms), r)
  {
    hide Assign;
    SetAllAt(f, ms, r);
    SetAllAt(f, Compile(ms).value, r);
    CompiledAt(ms, Load(f, r), r);
    if exists m :: m in ms && m.reg == r {
      OfRegContains(ms, r);
      MergedActsLikeParts(Load(f, r), OfReg(ms, r));
      MergedActsLikeParts(Load(f, r), [Merged(ms, r).value]);
    }
  }

  /** Order and repetition of the masks do not matter, neither for acceptance nor for the effect. */
  lemma SetDependsOnElements(ms: seq<RegMask>, ns: seq<RegMask>, f: File, r: Reg)
    requires forall m :: m in ms <==> m in ns
    ensures Compile(ms).Some? <==> Compile(ns).Some?
    ensures Compile(ms).Some? ==>
              Load(SetAll(f, Compile(ms).value), r) == Load(SetAll(f, Compile(ns).value), r)
  {
    hide Assign, Compatible;
    CompileDefinedIff(ms);
    CompileDefinedIff(ns);
    if Compile(ms).Some? {
      SetAllAt(f, Compile(ms).value, r);
      SetAllAt(f, Compile(ns).value, r);
      CompiledAt(ms, Load(f, r), r);
      CompiledAt(ns, Load(f, r), r);
      OfRegContains(ms, r);
      OfRegContains(ns, r);
      if m :| m in ms && m.reg == r {
        MergeAllDependsOnElements(OfReg(ms, r), OfReg(ns, r));
      }
    }
  }

  // ---------- testing ----------

  /** The value regmask<>::test() returns for a register value. */
  function TestValue(v: bv32, m: RegMask): bool {
    TestBits(v, m.setMask, m.clearMask)
  }

  function TestBits(v: bv32, s: bv32, c: bv32): bool {
    if c == 0 then false
    else if c == s then And(v, c) != 0
    else And(v, c) == s
  }

  /** What test() tells. Of a field that is not all ones: whether set() would change nothing. Of a
      field of ones: whether clear() would change something. */
  lemma TestMeaning(v: bv32, m: RegMask)
    ensures m.clearMask == 0 ==> !TestValue(v, m)
    ensures m.clearMask != 0 && m.clearMask != m.setMask ==> (TestValue(v, m) <==> Assign(v, m) == v)
    ensures m.clearMask != 0 && m.clearMask == m.setMask ==> (TestValue(v, m) <==> AndNot(v, m.clearMask) != v)
  {
    hide And, AndNot, AssignBits, Covers;
    if And(v, m.clearMask) == m.setMask {
      FieldStays(v, m.setMask, m.clearMask);
    }
    if Assign(v, m) == v {
      FieldReads(v, m.setMask, m.clearMask);
    }
    FieldIsCleared(v, m.clearMask);
  }

  lemma FieldStays(v: bv32, s: bv32, c: bv32)
    requires And(v, c) == s
    ensures AssignBits(v, s, c) == v
  {
  }

  lemma FieldReads(v: bv32, s: bv32, c: bv32)
    requires Covers(c, s)
    ensures And(AssignBits(v, s, c), c) == s
  {
  }

  lemma FieldIsCleared(v: bv32, c: bv32)
    ensures And(v, c) != 0 <==> AndNot(v, c) != v
  {
  }

  lemma PartHolds(v: bv32, whole: RegMask, m: RegMask)
    requires Within(m.setMask, whole.setMask) && Within(m.clearMask, whole.clearMask)
    requires Compatible(whole, m) && m.clearMask != 0
    ensures TestValue(Assign(v, whole), m)
  {
    hide Agree, Covers, Within, AssignBits, TestBits;
    FieldIsSet(v, whole.setMask, whole.clearMask, m.setMask, m.clearMask);
  }

  lemma FieldIsSet(v: bv32, s: bv32, c: bv32, s': bv32, c': bv32)
    requires Within(s', s) && Within(c', c) && Agree(s, c, s', c') && Covers(c', s')
    requires c' != 0
    ensures TestBits(AssignBits(v, s, c), s', c')
  {
    assert And(AssignBits(v, s, c), c') == s';
  }

  /** Each part of a merged mask tests true once the merged mask is assigned. */
  lemma PartsHoldAfterMerged(v: bv32, group: seq<RegMask>, m: RegMask)
    requires m in group && MergeAll(group).Some? && m.clearMask != 0
    ensures TestValue(Assign(v, MergeAll(group).value), m)
  {
    hide Agree, Covers, Within, TestValue, Assign;
    var whole := MergeAll(group).value;
    CompatibleReflexive(whole);
    CompatibleWithAll(whole, group);
    WithinReflexive(whole.setMask);
    WithinReflexive(whole.clearMask);
    MergeAllIsLeast(group, whole.setMask, whole.clearMask);
    AllWithinContains(group, whole.setMask, whole.clearMask);
    PartHolds(v, whole, m);
  }

  lemma WithinReflexive(x: bv32)
    ensures Within(x, x)
  {
  }

  /** A field tests true once it is assigned. */
  lemma FieldHolds(v: bv32, m: RegMask)
    requires m.clearMask != 0
    ensures TestValue(Assign(v, m), m)
  {
    hide Agree, Within, Covers, TestValue, AssignBits;
    WithinReflexive(m.setMask);
    WithinReflexive(m.clearMask);
    CompatibleReflexive(m);
    PartHolds(v, m, m);
  }

  /** After reglist::set(), every listed item that names any bit tests true. */
  lemma ItemsHoldAfterSet(ms: seq<RegMask>, f: File, m: RegMask)
    requires Compile(ms).Some? && m in ms && m.clearMask != 0
    ensures TestValue(Load(SetAll(f, Compile(ms).value), m.reg), m)
  {
    hide Assign, TestValue;
    OfRegContains(ms, m.reg);
    CompiledAt(ms, Load(f, m.reg), m.reg);
    SetAllAt(f, Compile(ms).value, m.reg);
    var merged := Merged(ms, m.reg).value;
    MergedActsLikeParts(Load(f, m.reg), [merged]);
    PartsHoldAfterMerged(Load(f, m.reg), OfReg(ms, m.reg), m);
  }

  // ---------- resetting ----------

  /** The value stored by regmask<>::reset_to(). */
  function ResetValue(m: RegMask): bv32 {
    AssignBits(m.reg.reset, m.setMask, CroppedClearMask(m))
  }

  lemma ResetValueIsAssign(m: RegMask)
    ensures ResetValue(m) == Assign(m.reg.reset, m)
  {
    CroppedAssign(m.reg.reset, m);
  }

  /** The effect of regmask<>::reset_to(): a store without a load. */
  function ResetOne(f: File, m: RegMask): File {
    f[m.reg := ResetValue(m)]
  }

  function ResetAll(f: File, ms: seq<RegMask>): File
    decreases |ms|
  {
    if ms == [] then f else ResetAll(ResetOne(f, ms[0]), ms[1..])
  }

  lemma {:induction false} ResetAllAt(f: File, us: seq<RegMask>, r: Reg)
    requires forall i, j :: 0 <= i < j < |us| ==> us[i].reg != us[j].reg
    ensures Load(ResetAll(f, us), r) == if OfReg(us, r) == [] then Load(f, r) else Assign(r.reset, OfReg(us, r)[0])
    decreases |us|
  {
    hide Assign, ResetValue;
    if us != [] {
      var u := us[0];
      ResetValueIsAssign(u);
      ResetAllAt(ResetOne(f, u), us[1..], r);
      FilterCons((m: RegMask) => OnReg(r, m), u, us[1..]);
      assert [u] + us[1..] == us;
      GroupEmptyIff(us[1..], u.reg);
    }
  }

  /** reglist::reset_to() resets exactly the listed registers, and then applies all their items,
      whatever the registers held before. */
  lemma ResetState(ms: seq<RegMask>, f: File, r: Reg)
    requires Compile(ms).Some?
    ensures Load(ResetAll(f, Compile(ms).value), r) ==
            if exists m :: m in ms && m.reg == r then AssignAll(r.reset, OfReg(ms, r)) else Load(f, r)
  {
    hide Assign, Merged;
    CompiledShape(ms);
    ResetAllAt(f, Compile(ms).value, r);
    CompiledAt(ms, Load(f, r), r);
    if exists m :: m in ms && m.reg == r {
      MergedOfGroup(ms, r);
      MergedActsLikeParts(r.reset, OfReg(ms, r));
    }
  }

  lemma MergedOfGroup(ms: seq<RegMask>, r: Reg)
    requires exists m :: m in ms && m.reg == r
    ensures OfReg(ms, r) != [] && Merged(ms, r) == MergeAll(OfReg(ms, r))
  {
    GroupEmptyIff(ms, r);
  }

  /** The neutral masks that strict_reset_to adds in front of the list. */
  function Neutrals(regs: seq<Reg>): seq<RegMask> {
    if regs == [] then [] else [Neutral(regs[0])] + Neutrals(regs[1..])
  }

  /** reglist::all_reg_type<regs...> */
  predicate AllRegType(ms: seq<RegMask>, regs: seq<Reg>) {
    forall m :: m in ms ==> m.reg in regs
  }

  /** The masks reglist::strict_reset_to<regs...>() applies; None stands for a static_assert. */
  function StrictCompile(ms: seq<RegMask>, regs: seq<Reg>): Option<seq<RegMask>> {
    if AllRegType(ms, regs) then Compile(Neutrals(regs) + ms) else None
  }

  lemma {:induction false} NeutralsContain(regs: seq<Reg>, m: RegMask)
    ensures m in Neutrals(regs) <==> m.reg in regs && m == Neutral(m.reg)
  {
    if regs != [] {
      NeutralsContain(regs[1..], m);
      assert regs == [regs[0]] + regs[1..];
    }
  }

  /** With the neutral masks in front, exactly the strict registers are listed. */
  lemma StrictListsRegisters(ms: seq<RegMask>, regs: seq<Reg>)
    requires AllRegType(ms, regs)
    ensures forall r :: (exists m :: m in Neutrals(regs) + ms && m.reg == r) <==> r in regs
  {
    forall r ensures (exists m :: m in Neutrals(regs) + ms && m.reg == r) <==> r in regs {
      NeutralsContain(regs, Neutral(r));
      assert r in regs ==> Neutral(r) in Neutrals(regs) + ms;
      forall m | m in Neutrals(regs) + ms && m.reg == r ensures r in regs {
        NeutralsContain(regs, m);
      }
    }
  }

  /** The strict registers come first, in their order. */
  lemma StrictOrder(ms: seq<RegMask>, regs: seq<Reg>)
    requires StrictCompile(ms, regs).Some?
    ensures Registers(StrictCompile(ms, regs).value) == FirstOccurrences(regs)
  {
    hide FirstOccurrences, Compile;
    CompiledOrder(Neutrals(regs) + ms);
    RegistersAppend(Neutrals(regs), ms);
    NeutralRegisters(regs);
    forall r | r in Registers(ms) ensures r in regs {
      RegistersContain(ms, r);
    }
    NothingNew(regs, Registers(ms));
  }

  lemma {:induction false} NeutralRegisters(regs: seq<Reg>)
    ensures Registers(Neutrals(regs)) == regs
  {
    if regs != [] {
      NeutralRegisters(regs[1..]);
    }
  }

  lemma {:induction false} NothingNew(a: seq<Reg>, b: seq<Reg>)
    requires forall r :: r in b ==> r in a
    ensures FirstOccurrences(a + b) == FirstOccurrences(a)
    decreases |b|
  {
    if b == [] {
      assert a + b == a;
    } else {
      var init, last := b[..|b| - 1], b[|b| - 1];
      NothingNew(a, init);
      assert a + b == (a + init) + [last];
      FirstOccurrencesOneMore(a + init, last);
      FirstOccurrencesProperties(a);
    }
  }

  lemma StrictDefinedIff(ms: seq<RegMask>, regs: seq<Reg>)
    ensures StrictCompile(ms, regs).Some? <==> AllRegType(ms, regs) && NoConflict(ms)
  {
    hide Compatible;
    var all := Neutrals(regs) + ms;
    CompileDefinedIff(all);
    forall a, b | a in all && b in all && a.reg == b.reg && !(a in ms && b in ms) ensures Compatible(a, b) {
      NeutralsContain(regs, a);
      NeutralsContain(regs, b);
      NeutralIsCompatible(a);
      NeutralIsCompatible(b);
    }
  }

  lemma NeutralIsCompatible(m: RegMask)
    ensures Compatible(m, Neutral(m.reg)) && Compatible(Neutral(m.reg), m)
  {
    ZeroAgrees(m.setMask, m.clearMask);
  }

  lemma {:induction false} AssignNeutrals(v: bv32, ns: seq<RegMask>, ms: seq<RegMask>)
    requires forall n :: n in ns ==> n == Neutral(n.reg)
    ensures AssignAll(v, ns + ms) == AssignAll(v, ms)
    decreases |ns|
  {
    hide Assign;
    if ns == [] {
      assert ns + ms == ms;
    } else {
      assert (ns + ms)[1..] == ns[1..] + ms;
      AssignNeutral(v, ns[0]);
      AssignNeutrals(v, ns[1..], ms);
    }
  }

  /** Main result on strict_reset_to: a strict register ends with its reset value overlaid with the
      items listed for it, whatever it held before; every other register is left alone. */
  lemma StrictResetState(ms: seq<RegMask>, regs: seq<Reg>, f: File, r: Reg)
    requires StrictCompile(ms, regs).Some?
    ensures Load(ResetAll(f, StrictCompile(ms, regs).value), r) ==
            if r in regs then AssignAll(r.reset, OfReg(ms, r)) else Load(f, r)
  {
    hide Assign;
    var all := Neutrals(regs) + ms;
    ResetState(all, f, r);
    NeutralsContain(regs, Neutral(r));
    assert (exists m :: m in all && m.reg == r) <==> r in regs by {
      forall m | m in all && m.reg == r ensures r in regs {
        NeutralsContain(regs, m);
      }
      assert r in regs ==> Neutral(r) in all;
    }
    FilterAppend((m: RegMask) => OnReg(r, m), Neutrals(regs), ms);
    OfRegContains(Neutrals(regs), r);
    forall n | n in OfReg(Neutrals(regs), r) ensures n == Neutral(n.reg) {
      NeutralsContain(regs, n);
    }
    AssignNeutrals(r.reset, OfReg(Neutrals(regs), r), OfReg(ms, r));
  }

  /** After strict_reset_to, every listed item that names any bit tests true. */
  lemma ItemsHoldAfterStrictReset(ms: seq<RegMask>, regs: seq<Reg>, f: File, m: RegMask)
    requires StrictCompile(ms, regs).Some? && m in ms && m.clearMask != 0
    ensures TestValue(Load(ResetAll(f, StrictCompile(ms, regs).value), m.reg), m)
  {
    hide Assign, TestValue, Merged;
    var r := m.reg;
    StrictResetState(ms, regs, f, r);
    StrictDefinedIff(ms, regs);
    CompileDefinedIff(ms);
    MergedOfGroup(ms, r);
    MergedDefinedIff(ms, r);
    OfRegContains(ms, r);
    MergedActsLikeParts(r.reset, OfReg(ms, r));
    PartsHoldAfterMerged(r.reset, OfReg(ms, r), m);
  }
}
