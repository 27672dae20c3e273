/** The run-time side of registers: single accesses, the regmask commands with their bit-band
    shortcuts, and the reglist commands. */
module RegisterFiles {
  import opened TypeLists
  import opened BitBand
  import opened RegMasks
  import opened RegLists

  /** regmask<>::bitop_enabled */
  predicate BitopEnabled(m: RegMask) {
    Covered(m.reg.addr) && BitCount(m.clearMask) == 1
  }

  /** The bit number passed to bitset<>, bitclear<> and bittest<>. */
  function BitNo(m: RegMask): (k: nat)
    requires BitopEnabled(m)
    ensures k < 32 && m.clearMask == Bit(k)
  {
    SingleBit(m.clearMask);
    SignificantBitsBound(m.clearMask, 0);
    SignificantBits(m.clearMask) - 1
  }

  lemma ShortSet(v: bv32, m: RegMask)
    requires BitopEnabled(m) && m.setMask == m.clearMask
    ensures Or(v, Bit(BitNo(m))) == Assign(v, m)
  {
    hide BitCount, SignificantBits, Bit, Covers, Or, AssignBits;
    SetBits(v, m.clearMask);
  }

  lemma SetBits(v: bv32, c: bv32)
    ensures Or(v, c) == AssignBits(v, c, c)
  {
  }

  /** On a single-bit mask, testing the alias word is testing the mask. */
  lemma ShortTest(v: bv32, m: RegMask)
    requires BitopEnabled(m)
    ensures TestValue(v, m) <==> (And(v, Bit(BitNo(m))) != 0) == (m.setMask != 0)
  {
    hide BitCount, SignificantBits, Bit, TestBits, And;
    PartOfBit(m.setMask, BitNo(m));
    BitIsNotZero(BitNo(m));
    SingleBitTest(v, m.setMask, m.clearMask);
  }

  lemma BitIsNotZero(k: nat)
    requires k < 32
    ensures Bit(k) != 0
  {
    BitFits(k);
  }

  lemma SingleBitTest(v: bv32, s: bv32, c: bv32)
    requires c != 0 && (s == 0 || s == c)
    ensures TestBits(v, s, c) <==> (And(v, c) != 0) == (s != 0)
  {
  }

  lemma SetOneChanges(f: File, m: RegMask)
    requires m.clearMask != 0
    ensures SetOne(f, m) == f[m.reg := Load(f, m.reg)] <==> Assign(Load(f, m.reg), m) == Load(f, m.reg)
  {
    hide AssignBits;
    assert SetOne(f, m)[m.reg] == Assign(Load(f, m.reg), m);
  }

  /** The registers that set() on each of the masks writes, in order. */
  function Written(ms: seq<RegMask>): seq<Reg> {
    if ms == [] then []
    else (if ms[0].setMask == 0 && ms[0].clearMask == 0 then [] else [ms[0].reg]) + Written(ms[1..])
  }

  /** Masks that are not neutral are written one after the other, in list order. */
  lemma {:induction false} WrittenInOrder(ms: seq<RegMask>, k: nat)
    requires k < |ms| && forall m :: m in ms ==> m.clearMask != 0
    ensures |Written(ms)| == |ms| && Written(ms)[k] == ms[k].reg
  {
    assert ms[0] in ms;
    if |ms| > 1 {
      WrittenInOrder(ms[1..], if k > 0 then k - 1 else 0);
    }
  }

  lemma {:induction false} WrittenDistinct(us: seq<RegMask>)
    requires forall i, j :: 0 <= i < j < |us| ==> us[i].reg != us[j].reg
    ensures NoDuplicates(Written(us))
    ensures forall r :: r in Written(us) ==> exists u :: u in us && u.reg == r
  {
    if us != [] {
      WrittenDistinct(us[1..]);
      assert us == [us[0]] + us[1..];
      forall u | u in us[1..] ensures u.reg != us[0].reg {
        var j :| 1 <= j < |us| && us[j] == u;
      }
      assert us[0].reg !in Written(us[1..]);
    }
  }

  lemma {:induction false} WrittenAll(us: seq<RegMask>)
    requires forall u :: u in us ==> u.clearMask != 0
    ensures Written(us) == Registers(us)
  {
    if us != [] {
      assert us[0] in us;
      WrittenAll(us[1..]);
    }
  }

  /** A merged mask with a part that is not neutral is not neutral. */
  lemma CompiledNotNeutral(ms: seq<RegMask>)
    requires Compile(ms).Some? && forall m :: m in ms ==> m.clearMask != 0
    ensures forall u :: u in Compile(ms).value ==> u.clearMask != 0
  {
    hide Compile;
    CompiledShape(ms);
    forall u | u in Compile(ms).value ensures u.clearMask != 0 {
      var m :| m in ms && m.reg == u.reg;
      OfRegContains(ms, u.reg);
      var group := OfReg(ms, u.reg);
      WithinReflexive(u.setMask);
      WithinReflexive(u.clearMask);
      MergeAllIsLeast(group, u.setMask, u.clearMask);
      AllWithinContains(group, u.setMask, u.clearMask);
      PartIsNotNeutral(m.clearMask, u.clearMask);
    }
  }

  lemma PartIsNotNeutral(part: bv32, whole: bv32)
    requires part != 0 && Within(part, whole)
    ensures whole != 0
  {
  }

  lemma {:induction false} RegistersDistinct(us: seq<RegMask>)
    requires forall i, j :: 0 <= i < j < |us| ==> us[i].reg != us[j].reg
    ensures NoDuplicates(Registers(us))
    ensures forall r :: r in Registers(us) <==> exists u :: u in us && u.reg == r
  {
    if us != [] {
      RegistersDistinct(us[1..]);
      assert us == [us[0]] + us[1..];
      forall u | u in us[1..] ensures u.reg != us[0].reg {
        var j :| 1 <= j < |us| && us[j] == u;
      }
      assert us[0].reg !in Registers(us[1..]);
    }
  }

  class RegisterFile {
    var value: File
    var stores: seq<Reg>    // the registers stored to, in order

    constructor ()
      ensures value == map[] && stores == []
    {
      value, stores := map[], [];
    }

    method Store(r: Reg, v: bv32)
      modifies this
      ensures value == old(value)[r := v] && stores == old(stores) + [r]
    {
      value := value[r := v];
      stores := stores + [r];
    }

    method BitSet(r: Reg, bit: nat)
      modifies this
      ensures value == old(value)[r := Or(Load(old(value), r), Bit(bit))] && stores == old(stores) + [r]
    {
      Store(r, Or(Load(value, r), Bit(bit)));
    }

    method BitClear(r: Reg, bit: nat)
      modifies this
      ensures value == old(value)[r := AndNot(Load(old(value), r), Bit(bit))] && stores == old(stores) + [r]
    {
      Store(r, AndNot(Load(value, r), Bit(bit)));
    }

    method BitTest(r: Reg, bit: nat) returns (b: bool)
      ensures b <==> And(Load(value, r), Bit(bit)) != 0
    {
      hide And, Bit;
      b := And(Load(value, r), Bit(bit)) != 0;
    }

    /** regmask<>::set(): the bit-band shortcut and the read-modify-write agree. */
    method Set(m: RegMask)
      modifies this
      ensures value == SetOne(old(value), m)
      ensures stores == old(stores) + Written([m])
    {
      hide Bit, BitCount, SignificantBits, AssignBits, Or, CroppedClearMask;
      if BitopEnabled(m) && m.setMask == m.clearMask {
        ShortSet(Load(value, m.reg), m);
        BitIsNotZero(BitNo(m));
        BitSet(m.reg, BitNo(m));
        return;
      }
      if m.setMask != 0 || m.clearMask != 0 {
        CroppedAssign(Load(value, m.reg), m);
        Store(m.reg, AssignBits(Load(value, m.reg), m.setMask, CroppedClearMask(m)));
      }
    }

    /** regmask<>::clear() */
    method Clear(m: RegMask)
      modifies this
      ensures m.clearMask == 0 ==> value == old(value) && stores == old(stores)
      ensures m.clearMask != 0 ==> value == old(value)[m.reg := AndNot(Load(old(value), m.reg), m.clearMask)]
      ensures m.clearMask != 0 ==> stores == old(stores) + [m.reg]
    {
      hide Bit, BitCount, SignificantBits, And, AndNot;
      if BitopEnabled(m) {
        BitIsNotZero(BitNo(m));
        BitClear(m.reg, BitNo(m));
        return;
      }
      if m.clearMask != 0 {
        Store(m.reg, AndNot(Load(value, m.reg), m.clearMask));
      }
    }

    /** regmask<>::test(): whether set() would change nothing or, for a field of ones, clear() would
        change something. */
    method Test(m: RegMask) returns (b: bool)
      ensures b == TestValue(Load(value, m.reg), m)
      ensures m.clearMask == 0 ==> !b
      ensures m.clearMask != 0 && m.clearMask != m.setMask ==> (b <==> SetOne(value, m) == value[m.reg := Load(value, m.reg)])
      ensures m.clearMask != 0 && m.clearMask == m.setMask ==> (b <==> AndNot(Load(value, m.reg), m.clearMask) != Load(value, m.reg))
    {
      hide Bit, BitCount, SignificantBits, And, AndNot, AssignBits;
      TestMeaning(Load(value, m.reg), m);
      if m.clearMask != 0 {
        SetOneChanges(value, m);
      }
      if m.clearMask == 0 {
        return false;
      }
      if BitopEnabled(m) && m.setMask != 0 {
        ShortTest(Load(value, m.reg), m);
        b := BitTest(m.reg, BitNo(m));
        return;
      }
      if BitopEnabled(m) && m.setMask == 0 {
        ShortTest(Load(value, m.reg), m);
        b := BitTest(m.reg, BitNo(m));
        b := !b;
        return;
      }
      if m.clearMask == m.setMask {
        return And(Load(value, m.reg), m.clearMask) != 0;
      }
      return And(Load(value, m.reg), m.clearMask) == m.setMask;
    }

    /** regmask<>::reset_to(): a single store, without a load, after which the register is as if
        the mask had been set right after a reset, whatever the register held before. */
    method ResetTo(m: RegMask)
      modifies this
      ensures value == old(value)[m.reg := Assign(m.reg.reset, m)] && stores == old(stores) + [m.reg]
      ensures m.clearMask != 0 ==> TestValue(Load(value, m.reg), m)
    {
      hide AssignBits, Assign, TestValue;
      ResetValueIsAssign(m);
      if m.clearMask != 0 {
        FieldHolds(m.reg.reset, m);
      }
      Store(m.reg, ResetValue(m));
    }

    /** list::for_each< functor_reg_set > */
    method ForEachSet(ms: seq<RegMask>)
      modifies this
      ensures value == SetAll(old(value), ms) && stores == old(stores) + Written(ms)
      decreases |ms|
    {
      hide SetOne;
      if ms != [] {
        Set(ms[0]);
        ForEachSet(ms[1..]);
        assert [ms[0]][1..] == [];
        assert Written(ms) == Written([ms[0]]) + Written(ms[1..]);
      }
    }

    /** list::for_each< functor_reg_reset_to > */
    method ForEachResetTo(ms: seq<RegMask>)
      modifies this
      ensures value == ResetAll(old(value), ms) && stores == old(stores) + Registers(ms)
      decreases |ms|
    {
      hide Assign, ResetValue;
      if ms != [] {
        ResetValueIsAssign(ms[0]);
        ResetTo(ms[0]);
        ForEachResetTo(ms[1..]);
      }
    }

    /** reglist<...>::set(), for a list that compiles: every register ends as if all items had been
        applied one at a time, and no register is written twice or without being listed. */
    method RegListSet(ms: seq<RegMask>)
      requires Compile(ms).Some?
      modifies this
      ensures forall r :: Load(value, r) == Load(SetAll(old(value), ms), r)
      ensures forall r :: (forall m :: m in ms ==> m.reg != r) ==> Load(value, r) == Load(old(value), r)
      ensures forall m :: m in ms && m.clearMask != 0 ==> TestValue(Load(value, m.reg), m)
      ensures exists written :: stores == old(stores) + written && NoDuplicates(written)
                && forall r :: r in written ==> exists m :: m in ms && m.reg == r
      ensures (forall m :: m in ms ==> m.clearMask != 0) ==> stores == old(stores) + FirstOccurrences(Registers(ms))
    {
      hide SetOne, Merged, Compile, TestValue, AssignAll;
      var us := Compile(ms).value;
      ForEachSet(us);
      forall r ensures Load(value, r) == Load(SetAll(old(value), ms), r) {
        SetPreservesMeaning(ms, old(value), r);
      }
      forall r | forall m :: m in ms ==> m.reg != r ensures Load(value, r) == Load(old(value), r) {
        UnlistedIsUntouched(ms, old(value), r);
      }
      forall m | m in ms && m.clearMask != 0 ensures TestValue(Load(value, m.reg), m) {
        ItemsHoldAfterSet(ms, old(value), m);
      }
      CompiledShape(ms);
      WrittenDistinct(us);
      if forall m :: m in ms ==> m.clearMask != 0 {
        CompiledNotNeutral(ms);
        WrittenAll(us);
        CompiledOrder(ms);
      }
    }

    /** reglist<...>::reset_to() */
    method RegListResetTo(ms: seq<RegMask>)
      requires Compile(ms).Some?
      modifies this
      ensures forall r :: Load(value, r) ==
                if exists m :: m in ms && m.reg == r then AssignAll(r.reset, OfReg(ms, r)) else Load(old(value), r)
      ensures exists written :: stores == old(stores) + written && NoDuplicates(written)
                && forall r :: r in written <==> exists m :: m in ms && m.reg == r
      ensures stores == old(stores) + FirstOccurrences(Registers(ms))
    {
      hide ResetOne, Merged, Compile, FirstOccurrences, Registers;
      CompiledOrder(ms);
      var us := Compile(ms).value;
      CompiledShape(ms);
      RegistersDistinct(us);
      ForEachResetTo(us);
      forall r ensures Load(value, r) ==
          if exists m :: m in ms && m.reg == r then AssignAll(r.reset, OfReg(ms, r)) else Load(old(value), r) {
        ResetState(ms, old(value), r);
      }
    }

    /** reglist<...>::strict_reset_to<regs...>() */
    method RegListStrictResetTo(ms: seq<RegMask>, regs: seq<Reg>)
      requires StrictCompile(ms, regs).Some?
      modifies this
      ensures forall r :: Load(value, r) ==
                if r in regs then AssignAll(r.reset, OfReg(ms, r)) else Load(old(value), r)
      ensures forall m :: m in ms && m.clearMask != 0 ==> TestValue(Load(value, m.reg), m)
      ensures exists written :: stores == old(stores) + written && NoDuplicates(written)
                && forall r :: r in written <==> r in regs
      ensures stores == old(stores) + FirstOccurrences(regs)
    {
      hide ResetOne, Merged, Compile, TestValue, FirstOccurrences, Registers;
      StrictOrder(ms, regs);
      var us := StrictCompile(ms, regs).value;
      CompiledShape(Neutrals(regs) + ms);
      RegistersDistinct(us);
      StrictListsRegisters(ms, regs);
      ForEachResetTo(us);
      forall r ensures Load(value, r) == if r in regs then AssignAll(r.reset, OfReg(ms, r)) else Load(old(value), r) {
        StrictResetState(ms, regs, old(value), r);
      }
      forall m | m in ms && m.clearMask != 0 ensures TestValue(Load(value, m.reg), m) {
        ItemsHoldAfterStrictReset(ms, regs, old(value), m);
      }
    }
  }
}
