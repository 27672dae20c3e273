/** The boot sequence of the demo on the simulated board: system clock and real time clock. */
module Boots {
  import TypeLists
  import opened BitBand
  import opened Wrappers
  import opened RegMasks
  import opened RegLists
  import opened RegisterFiles
  import opened SimBoards

  /** What test() returns for a field. */
  predicate Up(f: File, m: RegMask) {
    TestValue(Load(f, m.reg), m)
  }

  /** The rising edge that bits_set<m>() detects. */
  predicate Rises(m: RegMask, old_: bv32, v: bv32) {
    TestValue(v, m) && And(old_, m.setMask) == 0
  }

  // ---------- the reactions, register by register ----------

  lemma {:induction false} SkipRules(f: File, addr: nat, old_: bv32, rules: seq<Rule>, n: nat)
    requires n <= |rules| && forall k :: 0 <= k < n ==> rules[k].trigger.reg.addr != addr
    ensures Reacted(f, addr, old_, rules) == Reacted(f, addr, old_, rules[n..])
    decreases n
  {
    if n > 0 {
      SkipRules(f, addr, old_, rules[1..], n - 1);
      assert rules[1..][n - 1..] == rules[n..];
    } else {
      assert rules[0..] == rules;
    }
  }

  /** Rules for other registers do nothing. */
  lemma SkipRest(f: File, addr: nat, old_: bv32, rules: seq<Rule>)
    requires forall k :: 0 <= k < |rules| ==> rules[k].trigger.reg.addr != addr
    ensures Reacted(f, addr, old_, rules) == f
  {
    SkipRules(f, addr, old_, rules, |rules|);
  }

  lemma FirstRule(f: File, addr: nat, old_: bv32, rules: seq<Rule>)
    requires rules != []
    ensures Reacted(f, addr, old_, rules) ==
            Reacted(if Fires(rules[0], f, addr, old_) then SetAll(f, rules[0].responses) else f, addr, old_, rules[1..])
  {
    hide Fires, SetAll;
  }

  lemma SetOnly(f: File, m: RegMask)
    requires m.setMask != 0
    ensures SetAll(f, [m]) == f[m.reg := Assign(Load(f, m.reg), m)]
  {
    hide Assign;
    assert [m][1..] == [];
  }

  lemma SetBoth(f: File, m: RegMask, n: RegMask)
    requires m.setMask != 0 && n.setMask != 0 && m.reg != n.reg
    ensures SetAll(f, [m, n]) == f[m.reg := Assign(Load(f, m.reg), m)][n.reg := Assign(Load(f, n.reg), n)]
  {
    hide Assign;
    assert [m, n][1..] == [n];
    SetOnly(SetOne(f, m), n);
  }

  function CrAfter(old_: bv32, v: bv32): bv32 {
    var v1 := if Rises(HSEON, old_, v) then Assign(v, HSERDY) else v;
    if Rises(PLLON, old_, v1) then Assign(v1, PLLRDY) else v1
  }

  lemma StoredCr(f: File, v: bv32)
    ensures Load(Stored(f, CR, v), CR) == CrAfter(Load(f, CR), v)
    ensures forall r :: r != CR ==> Load(Stored(f, CR, v), r) == Load(f, r)
  {
    hide TestValue, Assign, And, SetAll, SetOne, Reacted;
    var old_, f0 := Load(f, CR), f[CR := v];
    var f1 := if Rises(HSEON, old_, v) then f0[CR := Assign(v, HSERDY)] else f0;
    SetOnly(f0, HSERDY);
    FirstRule(f0, CR.addr, old_, RULES);
    var v1 := Load(f1, CR);
    var f2 := if Rises(PLLON, old_, v1) then f1[CR := Assign(v1, PLLRDY)] else f1;
    SetOnly(f1, PLLRDY);
    assert RULES[1..][0].trigger == PLLON && RULES[1..][1..] == RULES[2..];
    FirstRule(f1, CR.addr, old_, RULES[1..]);
    SkipRest(f2, CR.addr, old_, RULES[2..]);
  }

  function CfgrAfter(old_: bv32, v: bv32): bv32 {
    if Rises(SW_PLL, old_, v) then Assign(v, SWS_PLL) else v
  }

  lemma StoredCfgr(f: File, v: bv32)
    ensures Load(Stored(f, CFGR, v), CFGR) == CfgrAfter(Load(f, CFGR), v)
    ensures forall r :: r != CFGR ==> Load(Stored(f, CFGR, v), r) == Load(f, r)
  {
    hide TestValue, Assign, And, SetAll, SetOne, Reacted;
    var old_, f0 := Load(f, CFGR), f[CFGR := v];
    SkipRules(f0, CFGR.addr, old_, RULES, 2);
    var f1 := if Rises(SW_PLL, old_, v) then f0[CFGR := Assign(v, SWS_PLL)] else f0;
    SetOnly(f0, SWS_PLL);
    assert RULES[2..][0].trigger == SW_PLL && RULES[2..][1..] == RULES[3..];
    FirstRule(f0, CFGR.addr, old_, RULES[2..]);
    SkipRest(f1, CFGR.addr, old_, RULES[3..]);
  }

  lemma StoredBdcr(f: File, v: bv32)
    ensures var f', rises := Stored(f, BDCR, v), Rises(RTCEN, Load(f, BDCR), v);
            && Load(f', BDCR) == (if rises then Assign(v, LSERDY) else v)
            && Load(f', CRL) == (if rises then Assign(Load(f, CRL), RSF) else Load(f, CRL))
            && forall r :: r != BDCR && r != CRL ==> Load(f', r) == Load(f, r)
  {
    hide TestValue, Assign, And, SetAll, SetOne, Reacted;
    var old_, f0 := Load(f, BDCR), f[BDCR := v];
    SkipRules(f0, BDCR.addr, old_, RULES, 3);
    var f1 := f0[BDCR := Assign(v, LSERDY)][CRL := Assign(Load(f, CRL), RSF)];
    SetBoth(f0, LSERDY, RSF);
    var f2 := if Rises(RTCEN, old_, v) then f1 else f0;
    assert RULES[3..][0].trigger == RTCEN && RULES[3..][1..] == RULES[4..];
    FirstRule(f0, BDCR.addr, old_, RULES[3..]);
    SkipRest(f2, BDCR.addr, old_, RULES[4..]);
  }

  function CrlAfter(old_: bv32, v: bv32): bv32 {
    if And(old_, RSF.setMask) != 0 && !TestValue(v, RSF) then Assign(v, RSF) else v
  }

  lemma StoredCrl(f: File, v: bv32)
    ensures Load(Stored(f, CRL, v), CRL) == CrlAfter(Load(f, CRL), v)
    ensures forall r :: r != CRL ==> Load(Stored(f, CRL, v), r) == Load(f, r)
  {
    hide TestValue, Assign, And, SetAll, SetOne, Reacted;
    var old_, f0 := Load(f, CRL), f[CRL := v];
    SkipRules(f0, CRL.addr, old_, RULES, 4);
    var falls := And(old_, RSF.setMask) != 0 && !TestValue(v, RSF);
    var f1 := if falls then f0[CRL := Assign(v, RSF)] else f0;
    SetOnly(f0, RSF);
    assert RULES[4..][0].trigger == RSF && RULES[4..][1..] == RULES[5..];
    FirstRule(f0, CRL.addr, old_, RULES[4..]);
    SkipRest(f1, CRL.addr, old_, RULES[5..]);
  }

  lemma StoredAdcCr2(f: File, v: bv32)
    ensures var f', rises := Stored(f, ADC1_CR2, v), Rises(SWSTART, Load(f, ADC1_CR2), v);
            && Load(f', ADC1_CR2) == v
            && Load(f', ADC1_SR) == (if rises then Assign(Load(f, ADC1_SR), EOC) else Load(f, ADC1_SR))
            && forall r :: r != ADC1_CR2 && r != ADC1_SR ==> Load(f', r) == Load(f, r)
  {
    hide TestValue, Assign, And, SetAll, SetOne, Reacted;
    var old_, f0 := Load(f, ADC1_CR2), f[ADC1_CR2 := v];
    SkipRules(f0, ADC1_CR2.addr, old_, RULES, 5);
    SetOnly(f0, EOC);
    var f1 := if Rises(SWSTART, old_, v) then f0[ADC1_SR := Assign(Load(f0, ADC1_SR), EOC)] else f0;
    assert RULES[5..][0].trigger == SWSTART && RULES[5..][1..] == RULES[6..];
    FirstRule(f0, ADC1_CR2.addr, old_, RULES[5..]);
    SkipRest(f1, ADC1_CR2.addr, old_, RULES[6..]);
  }

  lemma StoredSpiCr1(f: File, v: bv32)
    ensures var f', rises := Stored(f, SPI1_CR1, v), Rises(SPE, Load(f, SPI1_CR1), v);
            && Load(f', SPI1_CR1) == v
            && Load(f', SPI1_SR) == (if rises then Or(Load(f, SPI1_SR), 0x3) else Load(f, SPI1_SR))
            && forall r :: r != SPI1_CR1 && r != SPI1_SR ==> Load(f', r) == Load(f, r)
  {
    hide TestValue, Assign, And, Or, SetAll, SetOne, Reacted;
    var old_, f0, sr := Load(f, SPI1_CR1), f[SPI1_CR1 := v], Load(f, SPI1_SR);
    SkipRules(f0, SPI1_CR1.addr, old_, RULES, 6);
    SetTwice(f0, TXE, RXNE);
    SpiFlags(sr);
    var f1 := if Rises(SPE, old_, v) then f0[SPI1_SR := Assign(Assign(sr, TXE), RXNE)] else f0;
    assert RULES[6..][0].trigger == SPE && RULES[6..][1..] == [];
    FirstRule(f0, SPI1_CR1.addr, old_, RULES[6..]);
    SkipRest(f1, SPI1_CR1.addr, old_, []);
  }

  lemma SetTwice(f: File, m: RegMask, n: RegMask)
    requires m.setMask != 0 && n.setMask != 0 && m.reg == n.reg
    ensures SetAll(f, [m, n]) == f[m.reg := Assign(Assign(Load(f, m.reg), m), n)]
  {
    hide Assign;
    assert [m, n][1..] == [n];
    SetOnly(SetOne(f, m), n);
  }

  lemma SpiFlags(sr: bv32)
    ensures Assign(Assign(sr, TXE), RXNE) == Or(sr, 0x3)
  {
  }

  /** A register that no rule watches is just stored. */
  lemma StoredUnwatched(f: File, r: Reg, v: bv32)
    requires r.addr !in {CR.addr, CFGR.addr, BDCR.addr, CRL.addr, ADC1_CR2.addr, SPI1_CR1.addr}
    ensures Stored(f, r, v) == f[r := v]
  {
    SkipRest(f[r := v], r.addr, Load(f, r), RULES);
  }

  /** The one mask that rtc::init() applies for its three settings of the backup domain. */
  const RTC_CFG: RegMask := Mask(BDCR, 0x0000_8101, 0x0000_8301)

  // ---------- what setting a field does to the flags ----------

  /** set() on a field. */
  function AfterSet(f: File, m: RegMask): File {
    Stored(f, m.reg, Assign(Load(f, m.reg), m))
  }

  /** clear() on a field. */
  function AfterClear(f: File, m: RegMask): File {
    Stored(f, m.reg, AndNot(Load(f, m.reg), m.clearMask))
  }

  predicate Has(v: bv32, bit: bv32) {
    And(v, bit) != 0
  }

  lemma SetOwn(v: bv32, a: bv32)
    requires a != 0
    ensures And(AssignBits(v, a, a), a) != 0
  {
    assert And(AssignBits(v, a, a), a) == a;
  }

  lemma ClearOwn(v: bv32, a: bv32)
    ensures And(AndNot(v, a), a) == 0
  {
  }

  lemma SetOther(v: bv32, s: bv32, c: bv32, b: bv32)
    requires And(c, b) == 0 && Covers(c, s)
    ensures And(AssignBits(v, s, c), b) == And(v, b)
  {
  }

  lemma ClearOther(v: bv32, a: bv32, b: bv32)
    requires And(a, b) == 0
    ensures And(AndNot(v, a), b) == And(v, b)
  {
  }

  /** Setting or clearing one field leaves another one alone. */
  lemma FieldsOf(v: bv32, m: RegMask, n: RegMask)
    requires m.clearMask != 0 && And(m.clearMask, n.clearMask) == 0
    ensures TestValue(Assign(v, m), n) == TestValue(v, n) == TestValue(AndNot(v, m.clearMask), n)
  {
    hide AssignBits, AndNot, And, Covers;
    SetOther(v, m.setMask, m.clearMask, n.clearMask);
    ClearOther(v, m.clearMask, n.clearMask);
  }

  /** test(), set() and clear() on a flag. */
  lemma FlagOf(v: bv32, m: RegMask)
    requires m.setMask == m.clearMask != 0
    ensures TestValue(v, m) == (And(v, m.setMask) != 0)
    ensures TestValue(Assign(v, m), m) && !TestValue(AndNot(v, m.clearMask), m)
  {
    hide AssignBits, AndNot, And;
    SetOwn(v, m.setMask);
    ClearOwn(v, m.clearMask);
  }

  lemma FieldsAreDisjoint()
    ensures And(HSEON.clearMask, HSERDY.clearMask) == And(HSEON.clearMask, PLLON.clearMask)
         == And(HSEON.clearMask, PLLRDY.clearMask) == And(HSERDY.clearMask, PLLON.clearMask)
         == And(HSERDY.clearMask, PLLRDY.clearMask) == And(PLLON.clearMask, PLLRDY.clearMask) == 0
    ensures And(SW_PLL.clearMask, SWS_PLL.clearMask) == And(SWS_PLL.clearMask, SW_PLL.clearMask) == 0
    ensures And(BDRST.clearMask, RTCEN.clearMask) == And(BDRST.clearMask, LSERDY.clearMask)
         == And(LSERDY.clearMask, RTCEN.clearMask) == 0
    ensures And(RTC_CFG.clearMask, LSERDY.clearMask) == 0
    ensures And(RSF.clearMask, RTOFF.clearMask) == And(CNF.clearMask, RTOFF.clearMask) == And(CNF.clearMask, RSF.clearMask) == 0
  {
  }

  lemma HseonSet(f: File)
    ensures var f' := AfterSet(f, HSEON);
            && (Up(f', HSERDY) <==> (Up(f, HSEON) ==> Up(f, HSERDY)))
            && Up(f', PLLON) == Up(f, PLLON) && Up(f', PLLRDY) == Up(f, PLLRDY)
            && forall r :: r != CR ==> Load(f', r) == Load(f, r)
  {
    hide Stored, TestValue, Assign, And;
    FieldsAreDisjoint();
    var v := Load(f, CR);
    var v1 := Assign(v, HSEON);
    StoredCr(f, v1);
    FlagOf(v, HSEON);
    FlagOf(v, PLLON);
    FlagOf(v1, HSERDY);
    FieldsOf(v, HSEON, HSERDY);
    FieldsOf(v, HSEON, PLLON);
    FieldsOf(v, HSEON, PLLRDY);
    FieldsOf(v1, HSERDY, PLLON);
    FieldsOf(v1, HSERDY, PLLRDY);
  }

  lemma PllonSet(f: File)
    ensures var f' := AfterSet(f, PLLON);
            && (Up(f', PLLRDY) <==> (Up(f, PLLON) ==> Up(f, PLLRDY)))
            && forall r :: r != CR ==> Load(f', r) == Load(f, r)
  {
    hide Stored, TestValue, Assign, And;
    FieldsAreDisjoint();
    var v := Load(f, CR);
    var v1 := Assign(v, PLLON);
    StoredCr(f, v1);
    FlagOf(v, PLLON);
    FlagOf(v, HSEON);
    AndCommutes(PLLON.clearMask, HSEON.clearMask);
    FieldsOf(v, PLLON, HSEON);
    FlagOf(v1, PLLRDY);
    FieldsOf(v, PLLON, PLLRDY);
  }

  /** Setting one flag, and another one after it or finding it set. */
  lemma TwoFlags(v: bv32, a: bv32, b: bv32)
    ensures AssignBits(AssignBits(v, a, a), b, b) == Or(v, Or(a, b))
    ensures And(AssignBits(v, a, a), b) == b ==> AssignBits(v, a, a) == Or(v, Or(a, b))
  {
    hide AssignBits, Or, And;
    SetIsOr(v, a);
    SetIsOr(Or(v, a), b);
    OrAssociates(v, a, b);
    if And(Or(v, a), b) == b {
      OrAbsorbs(Or(v, a), b);
    }
  }

  lemma SetIsOr(v: bv32, a: bv32)
    ensures AssignBits(v, a, a) == Or(v, a)
  {
  }

  lemma OrAssociates(x: bv32, y: bv32, z: bv32)
    ensures Or(Or(x, y), z) == Or(x, Or(y, z))
  {
  }

  lemma OrAbsorbs(x: bv32, y: bv32)
    requires And(x, y) == y
    ensures Or(x, y) == x
  {
  }

  lemma ReadyFlags(x: bv32)
    ensures And(x, HSERDY.setMask) == 0 || And(x, HSERDY.setMask) == HSERDY.setMask
    ensures And(x, PLLRDY.setMask) == 0 || And(x, PLLRDY.setMask) == PLLRDY.setMask
    ensures Or(HSEON.setMask, HSERDY.setMask) == 0x0003_0000 && Or(PLLON.setMask, PLLRDY.setMask) == 0x0300_0000
  {
  }

  /** What CR holds once the oscillator is ready. */
  lemma HseonValue(f: File)
    requires Up(AfterSet(f, HSEON), HSERDY)
    ensures Load(AfterSet(f, HSEON), CR) == Or(Load(f, CR), 0x0003_0000)
  {
    hide Stored, TestValue, Assign, And, Or;
    FieldsAreDisjoint();
    var v := Load(f, CR);
    var v1 := Assign(v, HSEON);
    StoredCr(f, v1);
    FlagOf(v, PLLON);
    FieldsOf(v, HSEON, PLLON);
    FieldsOf(v1, HSERDY, PLLON);
    FlagOf(v1, HSERDY);
    ReadyFlags(v1);
    TwoFlagsSet(v, HSEON, HSERDY, 0x0003_0000);
  }

  lemma PllonValue(f: File)
    requires Up(AfterSet(f, PLLON), PLLRDY)
    ensures Load(AfterSet(f, PLLON), CR) == Or(Load(f, CR), 0x0300_0000)
  {
    hide Stored, TestValue, Assign, And, Or;
    FieldsAreDisjoint();
    var v := Load(f, CR);
    var v1 := Assign(v, PLLON);
    StoredCr(f, v1);
    FlagOf(v, HSEON);
    AndCommutes(PLLON.clearMask, HSEON.clearMask);
    FieldsOf(v, PLLON, HSEON);
    FlagOf(v1, PLLRDY);
    ReadyFlags(v1);
    TwoFlagsSet(v, PLLON, PLLRDY, 0x0300_0000);
  }

  lemma ClockFlags(cr: bv32)
    ensures Or(Or(cr, 0x0003_0000), 0x0300_0000) == Or(cr, 0x0303_0000)
  {
  }

  lemma TwoFlagsSet(v: bv32, m: RegMask, n: RegMask, both: bv32)
    requires m.setMask == m.clearMask && n.setMask == n.clearMask
    requires both == Or(m.setMask, n.setMask)
    ensures Assign(Assign(v, m), n) == Or(v, both)
    ensures And(Assign(v, m), n.setMask) == n.setMask ==> Assign(v, m) == Or(v, both)
  {
    hide AssignBits, And, Or;
    TwoFlags(v, m.setMask, n.setMask);
  }

  lemma AndCommutes(x: bv32, y: bv32)
    ensures And(x, y) == And(y, x)
  {
  }

  /** The clock switch is followed by its status when PLL was not selected before. */
  lemma SwSet(f: File)
    requires And(Load(f, CFGR), SW_PLL.setMask) == 0
    ensures var f' := AfterSet(f, SW_PLL);
            && Up(f', SW_PLL) && Up(f', SWS_PLL)
            && forall r :: r != CFGR ==> Load(f', r) == Load(f, r)
  {
    hide Stored, TestValue, Assign, And;
    FieldsAreDisjoint();
    var v1 := Assign(Load(f, CFGR), SW_PLL);
    StoredCfgr(f, v1);
    FieldHolds(Load(f, CFGR), SW_PLL);
    FieldHolds(v1, SWS_PLL);
    FieldsOf(v1, SWS_PLL, SW_PLL);
  }

  /** What CFGR holds after the switch from a configuration with the low four bits clear. */
  lemma SwValue(f: File)
    requires And(Load(f, CFGR), 0xF) == 0
    ensures Load(AfterSet(f, SW_PLL), CFGR) == Or(Load(f, CFGR), 0xA)
    ensures And(Load(f, CFGR), SW_PLL.setMask) == 0
  {
    hide Stored, TestValue, Assign, And, Or;
    var v := Load(f, CFGR);
    StoredCfgr(f, Assign(v, SW_PLL));
    FieldHolds(v, SW_PLL);
    SwBits(v);
  }

  lemma SwBits(v: bv32)
    requires And(v, 0xF) == 0
    ensures Assign(Assign(v, SW_PLL), SWS_PLL) == Or(v, 0xA) && And(v, SW_PLL.setMask) == 0
  {
  }

  /** A clock configuration that leaves the clock switch and its status alone. */
  predicate ClockCfg(cfg: RegMask) {
    cfg.reg == CFGR && And(cfg.clearMask, 0xF) == 0
  }

  lemma CfgrReset(f: File, cfg: RegMask)
    requires ClockCfg(cfg)
    ensures var f' := Stored(f, CFGR, ResetValue(cfg));
            && Load(f', CFGR) == ResetValue(cfg) == cfg.setMask
            && And(Load(f', CFGR), 0xF) == 0
            && forall r :: r != CFGR ==> Load(f', r) == Load(f, r)
  {
    hide Stored;
    LowBitsZero(cfg.setMask, CroppedClearMask(cfg), cfg.clearMask);
    NotSelected(ResetValue(cfg));
    StoredCfgr(f, ResetValue(cfg));
  }

  lemma LowBitsZero(s: bv32, cropped: bv32, c: bv32)
    requires And(c, 0xF) == 0 && Covers(c, s)
    ensures AssignBits(0, s, cropped) == s && And(s, 0xF) == 0
  {
  }

  lemma NotSelected(v: bv32)
    requires And(v, 0xF) == 0
    ensures And(v, SW_PLL.setMask) == 0 && !TestValue(v, SW_PLL)
  {
  }

  lemma BdrstPulse(f: File)
    ensures var f' := AfterClear(AfterSet(f, BDRST), BDRST);
            && Load(f', BDCR) == AndNot(Load(f, BDCR), 0x0001_0000)
            && Up(f', RTCEN) == Up(f, RTCEN) && Up(f', LSERDY) == Up(f, LSERDY)
            && forall r :: r != BDCR ==> Load(f', r) == Load(f, r)
  {
    hide Stored, TestValue, Assign, And, AndNot;
    FieldsAreDisjoint();
    var v := Load(f, BDCR);
    var v1 := Assign(v, BDRST);
    var v2 := AndNot(v1, BDRST.clearMask);
    StoredBdcr(f, v1);
    FlagOf(v, RTCEN);
    FlagOf(v1, RTCEN);
    FieldsOf(v, BDRST, RTCEN);
    FieldsOf(v, BDRST, LSERDY);
    FieldsOf(v1, BDRST, RTCEN);
    FieldsOf(v1, BDRST, LSERDY);
    StoredBdcr(AfterSet(f, BDRST), v2);
    PulseBits(v);
  }

  /** Setting and clearing a flag leaves it clear. */
  lemma PulseBits(v: bv32)
    ensures AndNot(Assign(v, BDRST), BDRST.clearMask) == AndNot(v, 0x0001_0000)
    ensures AndNot(Assign(v, CNF), CNF.clearMask) == AndNot(v, 0x10)
  {
  }

  /** The list of rtc::init() compiles to that mask. */
  lemma RtcListCompiles()
    ensures Compile([LSEON, RTCSEL_LSE, RTCEN]) == Some([RTC_CFG])
  {
    var ms: seq<RegMask> := [LSEON, RTCSEL_LSE, RTCEN];
    assert ms[1..] == [RTCSEL_LSE, RTCEN] && ms[2..] == [RTCEN] && ms[1..][1..] == ms[2..];
    assert MergeAll(ms[2..]) == Some(RTCEN);
    assert MergeAll(ms[1..]) == Some(Mask(BDCR, 0x8100, 0x8300));
    assert MergeAll(ms) == Some(RTC_CFG);
    assert OfReg(ms, BDCR) == ms by { WholeGroup(ms, BDCR); }
    assert ms[0] == LSEON && Merged(ms, BDCR) == Some(RTC_CFG);
    SingleRegister(ms, BDCR);
  }

  /** A list on one register compiles to the one mask its elements merge to. */
  lemma SingleRegister(ms: seq<RegMask>, r: Reg)
    requires ms != [] && ms[0] in ms && forall m :: m in ms ==> m.reg == r
    requires Merged(ms, r).Some?
    ensures Compile(ms) == Some([Merged(ms, r).value])
  {
    hide Compatible, Merged;
    assert ms[0] in ms;
    MergedDefinedIff(ms, r);
    CompileDefinedIff(ms);
    CompiledShape(ms);
    var us := Compile(ms).value;
    var u :| u in us && u.reg == ms[0].reg;
    assert |us| > 1 ==> us[0] != us[1];
    forall k | 0 <= k < |us| ensures us[k] == Merged(ms, r).value {
      assert us[k] in us;
    }
    assert |us| == 1;
    assert us == [us[0]];
  }

  lemma {:induction false} WholeGroup(ms: seq<RegMask>, r: Reg)
    requires forall m :: m in ms ==> m.reg == r
    ensures OfReg(ms, r) == ms
  {
    if ms != [] {
      TypeLists.FilterCons((m: RegMask) => OnReg(r, m), ms[0], ms[1..]);
      assert ms == [ms[0]] + ms[1..];
      WholeGroup(ms[1..], r);
    }
  }

  lemma RtcSet(f: File)
    ensures var f' := AfterSet(f, RTC_CFG);
            && (Up(f', LSERDY) <==> (Up(f, RTCEN) ==> Up(f, LSERDY)))
            && (Up(f', RSF) <==> (Up(f, RTCEN) ==> Up(f, RSF)))
            && Up(f', RTOFF) == Up(f, RTOFF)
            && Up(f', RTCEN) && Up(f', RTCSEL_LSE) && Up(f', LSEON)
            && (Load(f', CRL) == Load(f, CRL) || Load(f', CRL) == Or(Load(f, CRL), 0x8))
            && forall r :: r != BDCR && r != CRL ==> Load(f', r) == Load(f, r)
  {
    hide AfterSet, TestValue, Or;
    RtcSetsBackupDomain(f);
    RtcSetsSync(f);
  }

  lemma RtcSetsBackupDomain(f: File)
    ensures var f' := AfterSet(f, RTC_CFG);
            && (Up(f', LSERDY) <==> (Up(f, RTCEN) ==> Up(f, LSERDY)))
            && Up(f', RTCEN) && Up(f', RTCSEL_LSE) && Up(f', LSEON)
            && forall r :: r != BDCR && r != CRL ==> Load(f', r) == Load(f, r)
  {
    hide Stored, TestValue, Assign, And;
    var v := Load(f, BDCR);
    var v1 := Assign(v, RTC_CFG);
    StoredBdcr(f, v1);
    RtcEnableRises(v);
    LserdyAfterRtcCfg(v);
  }

  /** What BDCR holds once the LSE clock is ready, after a pulse of BDRST. */
  lemma RtcValue(f: File, old_: bv32)
    requires Up(AfterSet(f, RTC_CFG), LSERDY) && Load(f, BDCR) == AndNot(old_, 0x0001_0000)
    ensures Load(AfterSet(f, RTC_CFG), BDCR) == Or(AndNot(old_, 0x0001_8301), 0x0000_8103)
  {
    hide Stored, TestValue, Assign, And, Or, AndNot;
    var v := Load(f, BDCR);
    var v1 := Assign(v, RTC_CFG);
    StoredBdcr(f, v1);
    FlagOf(v1, LSERDY);
    BdcrBits(old_, v);
  }

  lemma BdcrBits(old_: bv32, v: bv32)
    requires v == AndNot(old_, 0x0001_0000)
    ensures var w := Or(AndNot(old_, 0x0001_8301), 0x0000_8103);
            && Assign(Assign(v, RTC_CFG), LSERDY) == w
            && (And(Assign(v, RTC_CFG), LSERDY.setMask) != 0 ==> Assign(v, RTC_CFG) == w)
  {
    hide AssignBits, Or, And, AndNot;
    var v1 := AssignBits(v, 0x8101, 0x8301);
    AssignIsOr(v, 0x8101, 0x8301);
    ClearTwice(old_);
    SetMore(AndNot(v, 0x8301));
    SetIsOr(v1, 0x2);
    LserdyBit(v1);
    if And(v1, 0x2) == 0x2 {
      OrAbsorbs(v1, 0x2);
    }
  }

  lemma AssignIsOr(v: bv32, s: bv32, c: bv32)
    ensures AssignBits(v, s, c) == Or(AndNot(v, c), s)
  {
  }

  lemma ClearTwice(v: bv32)
    ensures AndNot(AndNot(v, 0x0001_0000), 0x8301) == AndNot(v, 0x0001_8301)
  {
  }

  lemma SetMore(v: bv32)
    ensures Or(Or(v, 0x8101), 0x2) == Or(v, 0x8103)
  {
  }

  lemma LserdyBit(v: bv32)
    ensures And(v, 0x2) == 0 || And(v, 0x2) == 0x2
  {
  }

  /** Enabling the RTC is a rising edge exactly when it was not enabled. */
  lemma RtcEnableRises(v: bv32)
    ensures Rises(RTCEN, v, Assign(v, RTC_CFG)) <==> !TestValue(v, RTCEN)
  {
    hide TestValue, Assign, And;
    FlagOf(v, RTCEN);
    RtcCfgHolds(v);
  }

  lemma LserdyAfterRtcCfg(v: bv32)
    ensures var v1 := Assign(v, RTC_CFG);
            && TestValue(v1, LSERDY) == TestValue(v, LSERDY) && TestValue(Assign(v1, LSERDY), LSERDY)
            && TestValue(v1, RTCEN) && TestValue(v1, RTCSEL_LSE) && TestValue(v1, LSEON)
            && TestValue(Assign(v1, LSERDY), RTCEN) && TestValue(Assign(v1, LSERDY), RTCSEL_LSE)
            && TestValue(Assign(v1, LSERDY), LSEON)
  {
    hide TestValue, Assign, And;
    FieldsAreDisjoint();
    RtcCfgHolds(v);
    var v1 := Assign(v, RTC_CFG);
    FlagOf(v1, LSERDY);
    FieldsOf(v, RTC_CFG, LSERDY);
    FieldsOf(v1, LSERDY, RTCEN);
    FieldsOf(v1, LSERDY, RTCSEL_LSE);
    FieldsOf(v1, LSERDY, LSEON);
  }

  lemma RtcSetsSync(f: File)
    ensures var f' := AfterSet(f, RTC_CFG);
            && (Up(f', RSF) <==> (Up(f, RTCEN) ==> Up(f, RSF)))
            && Up(f', RTOFF) == Up(f, RTOFF)
            && (Load(f', CRL) == Load(f, CRL) || Load(f', CRL) == Or(Load(f, CRL), 0x8))
  {
    hide Stored, TestValue, Assign, And, Or;
    RsfBits(Load(f, CRL));
    FieldsAreDisjoint();
    var v, l := Load(f, BDCR), Load(f, CRL);
    StoredBdcr(f, Assign(v, RTC_CFG));
    FlagOf(v, RTCEN);
    RtcCfgHolds(v);
    FlagOf(l, RSF);
    FieldsOf(l, RSF, RTOFF);
  }

  lemma RtcCfgHolds(v: bv32)
    ensures TestValue(Assign(v, RTC_CFG), RTCEN)
    ensures TestValue(Assign(v, RTC_CFG), RTCSEL_LSE)
    ensures TestValue(Assign(v, RTC_CFG), LSEON)
    ensures And(LSERDY.clearMask, RTCSEL_LSE.clearMask) == And(LSERDY.clearMask, LSEON.clearMask) == 0
  {
    PartHolds(v, RTC_CFG, RTCEN);
    PartHolds(v, RTC_CFG, RTCSEL_LSE);
    PartHolds(v, RTC_CFG, LSEON);
  }

  /** Clearing the synchronisation flag raises it again exactly when it was up. */
  lemma RsfClear(f: File)
    ensures var f' := AfterClear(f, RSF);
            && Up(f', RSF) == Up(f, RSF) && Up(f', RTOFF) == Up(f, RTOFF)
            && (Up(f', RSF) ==> Load(f', CRL) == Or(Load(f, CRL), 0x8))
            && forall r :: r != CRL ==> Load(f', r) == Load(f, r)
  {
    hide Stored, TestValue, Assign, And, AndNot, Or;
    FieldsAreDisjoint();
    var v := Load(f, CRL);
    RsfBits(v);
    var v1 := AndNot(v, RSF.clearMask);
    StoredCrl(f, v1);
    FlagOf(v, RSF);
    FlagOf(v1, RSF);
    FieldsOf(v, RSF, RTOFF);
    FieldsOf(v1, RSF, RTOFF);
  }

  lemma RsfBits(v: bv32)
    ensures Assign(v, RSF) == Assign(AndNot(v, RSF.clearMask), RSF) == Or(v, 0x8) == Or(Or(v, 0x8), 0x8)
  {
    hide AssignBits, Or, AndNot;
    SetIsOr(v, 0x8);
    SetCleared(v);
    OrTwice(v);
  }

  lemma SetCleared(v: bv32)
    ensures AssignBits(AndNot(v, 0x8), 0x8, 0x8) == Or(v, 0x8)
  {
  }

  lemma OrTwice(v: bv32)
    ensures Or(Or(v, 0x8), 0x8) == Or(v, 0x8)
  {
  }

  lemma CnfStored(f: File, v: bv32)
    requires v == Assign(Load(f, CRL), CNF) || v == AndNot(Load(f, CRL), CNF.clearMask)
    ensures var f' := Stored(f, CRL, v);
            && Up(f', RTOFF) == Up(f, RTOFF) && Load(f', CRL) == v
            && forall r :: r != CRL ==> Load(f', r) == Load(f, r)
  {
    hide Stored, TestValue, Assign, And, AndNot;
    FieldsAreDisjoint();
    StoredCrl(f, v);
    FlagOf(Load(f, CRL), RSF);
    FieldsOf(Load(f, CRL), CNF, RSF);
    FieldsOf(Load(f, CRL), CNF, RTOFF);
  }

  /** The parts of a prescaler that go to PRLH and PRLL. */
  function HighPart(value: bv32): bv32 {
    (value & 0xF0000) >> 16
  }

  function LowPart(value: bv32): bv32 {
    value & 0xFFFF
  }

  lemma PrescalerStores(f: File, high: bv32, low: bv32)
    ensures var f' := Stored(Stored(f, PRLH, high), PRLL, low);
            && Load(f', PRLH) == high && Load(f', PRLL) == low
            && forall r :: r != PRLH && r != PRLL ==> Load(f', r) == Load(f, r)
  {
    hide Stored;
    StoredUnwatched(f, PRLH, high);
    StoredUnwatched(f[PRLH := high], PRLL, low);
  }

  /** Together they make up the low 20 bits. */
  lemma PrescalerParts(value: bv32)
    ensures (HighPart(value) << 16) | LowPart(value) == value & 0xFFFFF
    ensures HighPart(value) <= 0xF && LowPart(value) <= 0xFFFF
  {
  }

  // ---------- the board ----------

  /** From where the clock and RTC set-up do not wait forever: an oscillator, PLL or RTC that is
      on already is ready already, because only its being switched on makes the simulation set
      its ready flag. */
  predicate ClockReady(f: File) {
    (Up(f, HSEON) ==> Up(f, HSERDY)) && (Up(f, PLLON) ==> Up(f, PLLRDY))
  }

  predicate RtcReady(f: File) {
    (Up(f, RTCEN) ==> Up(f, LSERDY) && Up(f, RSF)) && Up(f, RTOFF)
  }

  /** The same in terms of the bits of CR, BDCR and CRL. */
  lemma ReadyBits(f: File)
    ensures ClockReady(f) <==>
            var cr := Load(f, CR);
            && (And(cr, 0x0001_0000) != 0 ==> And(cr, 0x0002_0000) != 0)
            && (And(cr, 0x0100_0000) != 0 ==> And(cr, 0x0200_0000) != 0)
    ensures RtcReady(f) <==>
            var bdcr, crl := Load(f, BDCR), Load(f, CRL);
            && (And(bdcr, 0x8000) != 0 ==> And(bdcr, 0x2) != 0 && And(crl, 0x8) != 0)
            && And(crl, 0x20) != 0
  {
    hide And, Load;
  }

  /** What a block of stores may write without disturbing some registers. */
  predicate Avoids(writes: seq<(Reg, bv32)>, addrs: set<nat>) {
    forall w :: w in writes ==> w.0.addr !in addrs
  }

  /** No reaction to a store to another register changes a clock or RTC control register, except
      that a store to BDCR may set RSF. */
  lemma RuleTargets(rule: Rule, q: Reg)
    requires rule in RULES && q in {CR, CFGR, BDCR, CRL}
    requires rule.trigger.reg.addr != q.addr && (q == CRL ==> rule.trigger.reg.addr != BDCR.addr)
    ensures forall p :: p in rule.responses ==> p.reg != q
  {
  }

  lemma {:induction false} ReactedLeaves(f: File, addr: nat, old_: bv32, rules: seq<Rule>, q: Reg)
    requires forall rule, p :: rule in rules && rule.trigger.reg.addr == addr && p in rule.responses ==> p.reg != q
    ensures Load(Reacted(f, addr, old_, rules), q) == Load(f, q)
    decreases |rules|
  {
    hide RULES, SetAll, TestValue, And;
    if rules != [] {
      var rule := rules[0];
      assert rule in rules && forall other :: other in rules[1..] ==> other in rules;
      if Fires(rule, f, addr, old_) {
        UnlistedIsUntouched(rule.responses, f, q);
        ReactedLeaves(SetAll(f, rule.responses), addr, old_, rules[1..], q);
      } else {
        ReactedLeaves(f, addr, old_, rules[1..], q);
      }
    }
  }

  lemma StoredLeaves(f: File, r: Reg, v: bv32, q: Reg)
    requires q in {CR, CFGR, BDCR, CRL} && r.addr != q.addr && (q == CRL ==> r.addr != BDCR.addr)
    ensures Load(Stored(f, r, v), q) == Load(f, q)
  {
    hide Reacted, RULES;
    forall rule, p | rule in RULES && rule.trigger.reg.addr == r.addr && p in rule.responses ensures p.reg != q {
      RuleTargets(rule, q);
    }
    ReactedLeaves(f[r := v], r.addr, Load(f, r), RULES, q);
  }

  /** A register that no rule watches or sets. */
  predicate Plain(q: Reg) {
    q.addr !in {CR.addr, CFGR.addr, BDCR.addr, CRL.addr, ADC1_SR.addr, ADC1_CR2.addr, SPI1_CR1.addr, SPI1_SR.addr}
  }

  lemma PlainIsNoTarget(rule: Rule, q: Reg)
    requires rule in RULES && Plain(q)
    ensures rule.trigger.reg.addr != q.addr && forall p :: p in rule.responses ==> p.reg != q
  {
  }

  lemma StoredPlain(f: File, r: Reg, v: bv32, q: Reg)
    requires Plain(q)
    ensures Load(Stored(f, r, v), q) == if r == q then v else Load(f, q)
  {
    hide Reacted, RULES;
    forall rule, p | rule in RULES && rule.trigger.reg.addr == r.addr && p in rule.responses ensures p.reg != q {
      PlainIsNoTarget(rule, q);
    }
    ReactedLeaves(f[r := v], r.addr, Load(f, r), RULES, q);
  }

  lemma PwrIsPlain()
    ensures Plain(PWR_CR) && Plain(PRLH) && Plain(PRLL)
  {
  }

  lemma PlainIsNot()
    ensures forall q :: Plain(q) ==> q !in {CR, CFGR, BDCR, CRL}
  {
  }

  // ---------- blocks of stores ----------

  /** The register file after some stores, with all reactions. */
  function StoredAll(f: File, writes: seq<(Reg, bv32)>): File
    decreases |writes|
  {
    if writes == [] then f else StoredAll(Stored(f, writes[0].0, writes[0].1), writes[1..])
  }

  /** The value that the last store to a register gives it, or the one it had. */
  function LastWritten(writes: seq<(Reg, bv32)>, q: Reg, v: bv32): bv32 {
    if writes == [] then v
    else if writes[|writes| - 1].0 == q then writes[|writes| - 1].1
    else LastWritten(writes[..|writes| - 1], q, v)
  }

  lemma {:induction false} LastWrittenCons(w: (Reg, bv32), writes: seq<(Reg, bv32)>, q: Reg, v: bv32)
    ensures LastWritten([w] + writes, q, v) == LastWritten(writes, q, if w.0 == q then w.1 else v)
  {
    if writes == [] {
      assert ([w] + writes)[..0] == [];
    } else {
      LastWrittenCons(w, writes[..|writes| - 1], q, v);
      assert ([w] + writes)[..|writes|] == [w] + writes[..|writes| - 1];
    }
  }

  lemma {:induction false} LastWrittenAppend(a: seq<(Reg, bv32)>, b: seq<(Reg, bv32)>, q: Reg, v: bv32)
    ensures LastWritten(a + b, q, v) == LastWritten(b, q, LastWritten(a, q, v))
    decreases |b|
  {
    if b == [] {
      assert a + b == a;
    } else {
      LastWrittenAppend(a, b[..|b| - 1], q, v);
      assert (a + b)[..|a + b| - 1] == a + b[..|b| - 1];
    }
  }

  /** A block of stores leaves each register that no rule is concerned with at the last value stored
      to it, whatever reactions the other stores set off. */
  lemma {:induction false} StoredAllPlain(f: File, writes: seq<(Reg, bv32)>, q: Reg)
    requires Plain(q)
    ensures Load(StoredAll(f, writes), q) == LastWritten(writes, q, Load(f, q))
    decreases |writes|
  {
    hide Stored;
    if writes != [] {
      var w := writes[0];
      StoredPlain(f, w.0, w.1, q);
      StoredAllPlain(Stored(f, w.0, w.1), writes[1..], q);
      LastWrittenCons(w, writes[1..], q, Load(f, q));
      assert [w] + writes[1..] == writes;
    }
  }

  /** The clock and RTC control registers keep their values if the block avoids them. */
  lemma {:induction false} StoredAllLeaves(f: File, writes: seq<(Reg, bv32)>, q: Reg)
    requires q in {CR, CFGR, BDCR, CRL} && Avoids(writes, {q.addr}) && (q == CRL ==> Avoids(writes, {BDCR.addr}))
    ensures Load(StoredAll(f, writes), q) == Load(f, q)
    decreases |writes|
  {
    hide Stored;
    if writes != [] {
      var w := writes[0];
      assert w in writes;
      StoredLeaves(f, w.0, w.1, q);
      StoredAllLeaves(Stored(f, w.0, w.1), writes[1..], q);
    }
  }

  /** The stores of reglist<>::reset_to(), for the masks its list compiles to. */
  function ResetWrites(us: seq<RegMask>): seq<(Reg, bv32)> {
    if us == [] then [] else [(us[0].reg, ResetValue(us[0]))] + ResetWrites(us[1..])
  }

  /** On a register that no rule is concerned with, the last of these stores gives the reset value
      overlaid with all items listed for the register. */
  lemma ResetWritesMeaning(ms: seq<RegMask>, q: Reg, v: bv32)
    requires Compile(ms).Some?
    ensures LastWritten(ResetWrites(Compile(ms).value), q, v) ==
            if exists m :: m in ms && m.reg == q then AssignAll(q.reset, OfReg(ms, q)) else v
  {
    hide Compile, AssignAll, OfReg;
    var f: File := map[q := v];
    ResetWritesAreResets(f, Compile(ms).value, q);
    ResetState(ms, f, q);
  }

  lemma {:induction false} ResetWritesAreResets(f: File, us: seq<RegMask>, q: Reg)
    ensures LastWritten(ResetWrites(us), q, Load(f, q)) == Load(ResetAll(f, us), q)
    decreases |us|
  {
    hide ResetValue, LastWritten;
    if us == [] {
      NothingWritten(q, Load(f, q));
    } else {
      LastWrittenCons((us[0].reg, ResetValue(us[0])), ResetWrites(us[1..]), q, Load(f, q));
      ResetWritesAreResets(ResetOne(f, us[0]), us[1..], q);
    }
  }

  lemma NothingWritten(q: Reg, v: bv32)
    ensures LastWritten([], q, v) == v
  {
  }

  function Max(a: nat, b: nat): nat {
    if a >= b then a else b
  }

  class SimBoard {
    var regs: File
    var running: nat      // regdump_reaction_running
    ghost var peak: nat   // the largest value of running since the last store by the program

    /** Between the stores of the program: no reaction is running, and none nested deeper than two. */
    ghost predicate Valid()
      reads this
    {
      running == 0 && peak <= 2
    }

    constructor ()
      ensures regs == map[] && Valid()
    {
      regs, running, peak := map[], 0, 0;
    }

    /** store_impl(): "depth" is how many nested levels the caller knows to be enough. */
    method StoreNested(r: Reg, v: bv32, ghost depth: nat)
      requires StoreImpl(regs, r, v, depth).Some?
      modifies this
      ensures Some(regs) == StoreImpl(old(regs), r, v, depth) && running == old(running)
      ensures old(running) < peak && old(peak) <= peak <= Max(old(peak), running + depth)
      decreases depth, 0, 0
    {
      var old_ := Load(regs, r);
      regs := regs[r := v];
      running := running + 1;
      peak := Max(peak, running);
      ReactTo(r.addr, old_, RULES, depth - 1);
      running := running - 1;
    }

    /** react(), from some rule on. */
    method ReactTo(addr: nat, old_: bv32, rules: seq<Rule>, ghost depth: nat)
      requires React(regs, addr, old_, rules, depth).Some?
      modifies this
      ensures Some(regs) == React(old(regs), addr, old_, rules, depth) && running == old(running)
      ensures old(peak) <= peak <= Max(old(peak), running + depth)
      decreases depth, 2, |rules|
    {
      hide Fires;
      if rules != [] {
        if Fires(rules[0], regs, addr, old_) {
          RespondWith(rules[0].responses, depth);
        }
        ReactTo(addr, old_, rules[1..], depth);
      }
    }

    method RespondWith(responses: seq<RegMask>, ghost depth: nat)
      requires Respond(regs, responses, depth).Some?
      modifies this
      ensures Some(regs) == Respond(old(regs), responses, depth) && running == old(running)
      ensures old(peak) <= peak <= Max(old(peak), running + depth)
      decreases depth, 1, |responses|
    {
      hide React, Assign;
      if responses != [] {
        var p := responses[0];
        StoreNested(p.reg, Assign(Load(regs, p.reg), p), depth);
        RespondWith(responses[1..], depth);
      }
    }

    /** A store by the program: it always terminates, reacts as the rules say, and nests at most
        twice; not at all when no rule fires. */
    method Store(r: Reg, v: bv32)
      requires Valid()
      modifies this
      ensures Valid() && regs == Stored(old(regs), r, v)
      ensures 1 <= peak <= 2
      ensures StoreImpl(old(regs), r, v, 1).Some? ==> peak == 1
    {
      hide RULES, Fires;
      peak := 0;
      StoreNestsAtMostTwice(regs, r, v, 2);
      if StoreImpl(regs, r, v, 1).Some? {
        FlatStoreIsStored(regs, r, v);
        StoreNested(r, v, 1);
      } else {
        StoreNested(r, v, 2);
      }
    }

    /** Stores one after the other, as in reglist<>::reset_to(). */
    method StoreAll(writes: seq<(Reg, bv32)>)
      requires Valid()
      modifies this
      ensures Valid() && regs == StoredAll(old(regs), writes)
      ensures forall q :: Plain(q) ==> Load(regs, q) == LastWritten(writes, q, Load(old(regs), q))
      ensures forall q :: q in {CR, CFGR, BDCR, CRL} && Avoids(writes, {q.addr}) && (q == CRL ==> Avoids(writes, {BDCR.addr}))
                ==> Load(regs, q) == Load(old(regs), q)
      decreases |writes|
    {
      hide Stored, LastWritten, Plain;
      ghost var before := regs;
      if writes != [] {
        Store(writes[0].0, writes[0].1);
        StoreAll(writes[1..]);
      }
      forall q | Plain(q) ensures Load(regs, q) == LastWritten(writes, q, Load(before, q)) {
        StoredAllPlain(before, writes, q);
      }
      forall q | q in {CR, CFGR, BDCR, CRL} && Avoids(writes, {q.addr}) && (q == CRL ==> Avoids(writes, {BDCR.addr}))
        ensures Load(regs, q) == Load(before, q)
      {
        StoredAllLeaves(before, writes, q);
      }
    }

    /** regmask<>::set() */
    method Set(m: RegMask)
      requires Valid() && m.setMask != 0
      modifies this
      ensures regs == AfterSet(old(regs), m) && Valid()
    {
      hide Stored, BitCount, SignificantBits, Bit, AssignBits, Or, CroppedClearMask;
      var v := Load(regs, m.reg);
      if BitopEnabled(m) && m.setMask == m.clearMask {
        ShortSet(v, m);
        Store(m.reg, Or(v, Bit(BitNo(m))));
      } else {
        CroppedAssign(v, m);
        Store(m.reg, AssignBits(v, m.setMask, CroppedClearMask(m)));
      }
    }

    /** regmask<>::clear() */
    method Clear(m: RegMask)
      requires Valid() && m.clearMask != 0
      modifies this
      ensures regs == AfterClear(old(regs), m) && Valid()
    {
      hide Stored, BitCount, SignificantBits, Bit, AndNot;
      var v := Load(regs, m.reg);
      if BitopEnabled(m) {
        Store(m.reg, AndNot(v, Bit(BitNo(m))));
      } else {
        Store(m.reg, AndNot(v, m.clearMask));
      }
    }

    /** while(m::test() == false); observed for at most "polls" rounds. However long it is
        observed, it ends exactly when the field is up already: loads change nothing. */
    method Wait(m: RegMask, polls: nat) returns (done: bool)
      ensures done <==> Up(regs, m)
    {
      done := TestValue(Load(regs, m.reg), m);
      var n := polls;
      while !done && n > 0
        invariant done <==> Up(regs, m)
      {
        done := TestValue(Load(regs, m.reg), m);
        n := n - 1;
      }
    }

    /** startup(): system_clock_hse::init(), the stores of the early configuration list, and
        configure(). */
    method ClockSetup(early: seq<(Reg, bv32)>, cfg: RegMask, polls: nat) returns (done: bool)
      requires Valid() && ClockCfg(cfg)
      requires Avoids(early, {CR.addr, BDCR.addr, CRL.addr})
      modifies this
      ensures Valid()
      ensures done <==> ClockReady(old(regs))
      ensures done ==> Up(regs, SW_PLL) && Up(regs, SWS_PLL)
      ensures done ==> Load(regs, CR) == Or(Load(old(regs), CR), 0x0303_0000) && Load(regs, CFGR) == Or(cfg.setMask, 0xA)
      ensures done ==> forall q :: Plain(q) ==> Load(regs, q) == LastWritten(early, q, Load(old(regs), q))
      ensures Load(regs, BDCR) == Load(old(regs), BDCR) && Load(regs, CRL) == Load(old(regs), CRL)
    {
      hide Stored, AfterSet, TestValue, ClockCfg, And, Or, Plain, LastWritten, Load;
      PlainIsNot();
      ghost var cr := Load(regs, CR);
      HseonSet(regs);
      Set(HSEON);
      done := Wait(HSERDY, polls);
      if !done {
        return;
      }
      HseonValue(old(regs));
      AvoidsEach(early);
      StoreAll(early);
      CfgrReset(regs, cfg);
      Store(CFGR, ResetValue(cfg));
      ghost var configured := regs;
      PllonSet(regs);
      Set(PLLON);
      done := Wait(PLLRDY, polls);
      if !done {
        return;
      }
      PllonValue(configured);
      ClockFlags(cr);
      SwValue(regs);
      SwSet(regs);
      Set(SW_PLL);
      done := Wait(SWS_PLL, polls);
    }

    /** rtc::set_prescaler(): enter and leave configuration mode around two stores. */
    method SetPrescaler(value: bv32, polls: nat) returns (done: bool)
      requires Valid()
      modifies this
      ensures Valid()
      ensures done <==> Up(old(regs), RTOFF)
      ensures done ==> Load(regs, PRLH) == HighPart(value) && Load(regs, PRLL) == LowPart(value)
      ensures done ==> !Up(regs, CNF) && Load(regs, CRL) == AndNot(Load(old(regs), CRL), 0x10)
      ensures forall r :: r != CRL && r != PRLH && r != PRLL ==> Load(regs, r) == Load(old(regs), r)
    {
      hide Stored, TestValue, Assign, AndNot, HighPart, LowPart, Load;
      done := Wait(RTOFF, polls);
      if !done {
        return;
      }
      PulseBits(Load(regs, CRL));
      CnfStored(regs, Assign(Load(regs, CRL), CNF));
      Set(CNF);
      PrescalerStores(regs, HighPart(value), LowPart(value));
      Store(PRLH, HighPart(value));
      Store(PRLL, LowPart(value));
      CnfStored(regs, AndNot(Load(regs, CRL), CNF.clearMask));
      FlagOf(Load(regs, CRL), CNF);
      Clear(CNF);
      done := Wait(RTOFF, polls);
    }

    /** rtc::init() */
    method RtcInit(prescaler: bv32, polls: nat) returns (done: bool)
      requires Valid()
      modifies this
      ensures Valid()
      ensures done <==> RtcReady(old(regs))
      ensures done ==> Up(regs, RTCEN) && Up(regs, RTCSEL_LSE) && Up(regs, LSEON) && !Up(regs, CNF)
      ensures done ==> Load(regs, PRLH) == HighPart(prescaler) && Load(regs, PRLL) == LowPart(prescaler)
      ensures done ==> Load(regs, BDCR) == Or(AndNot(Load(old(regs), BDCR), 0x0001_8301), 0x0000_8103)
      ensures done ==> Load(regs, CRL) == AndNot(Or(Load(old(regs), CRL), 0x8), 0x10)
      ensures done ==> Load(regs, PWR_CR) == Or(Load(old(regs), PWR_CR), 0x0000_0100)
      ensures forall r :: r !in {BDCR, CRL, PWR_CR, PRLH, PRLL} ==> Load(regs, r) == Load(old(regs), r)
    {
      hide Stored, AfterSet, AfterClear, TestValue, Assign, AndNot, Or, HighPart, LowPart, Load;
      ghost var bdcr, crl := Load(regs, BDCR), Load(regs, CRL);
      BdrstPulse(regs);
      Set(BDRST);
      Clear(BDRST);
      DbpStored(regs);
      Set(DBP);
      RtcListCompiles();
      RtcSet(regs);
      ghost var clocked := regs;
      Set(Compile([LSEON, RTCSEL_LSE, RTCEN]).value[0]);
      done := Wait(LSERDY, polls);
      if !done {
        return;
      }
      RtcValue(clocked, bdcr);
      RsfBits(crl);
      RsfClear(regs);
      Clear(RSF);
      done := Wait(RSF, polls);
      if !done {
        return;
      }
      done := SetPrescaler(prescaler, polls);
    }

    /** From the reset routine to the end of the RTC set-up: startup(), the stores of the kernel's
        resource list and whatever else is stored before the RTC is set up, and rtc::init(). If
        those stores leave the RTC control registers to rtc::init(), every wait loop is left
        exactly from the register files described by ClockReady and RtcReady. If they leave the
        clock configuration alone as well, the system clock ends up switched to the PLL. */
    method Boot(early: seq<(Reg, bv32)>, cfg: RegMask, resources: seq<(Reg, bv32)>, prescaler: bv32, polls: nat)
      returns (done: bool)
      requires Valid() && ClockCfg(cfg)
      requires Avoids(early, {CR.addr, BDCR.addr, CRL.addr})
      requires Avoids(resources, {BDCR.addr, CRL.addr})
      modifies this
      ensures Valid()
      ensures done <==> ClockReady(old(regs)) && RtcReady(old(regs))
      ensures done ==> Up(regs, RTCEN)
      ensures done && Avoids(resources, {CFGR.addr}) ==> Up(regs, SW_PLL) && Up(regs, SWS_PLL)
      ensures done && Avoids(resources, {CFGR.addr}) ==> Load(regs, CFGR) == Or(cfg.setMask, 0xA)
      ensures done && Avoids(resources, {CR.addr}) ==> Load(regs, CR) == Or(Load(old(regs), CR), 0x0303_0000)
      ensures done ==> Load(regs, BDCR) == Or(AndNot(Load(old(regs), BDCR), 0x0001_8301), 0x0000_8103)
      ensures done ==> Load(regs, CRL) == AndNot(Or(Load(old(regs), CRL), 0x8), 0x10)
      ensures done ==> Load(regs, PRLH) == HighPart(prescaler) && Load(regs, PRLL) == LowPart(prescaler)
      ensures done ==> Load(regs, PWR_CR) == Or(LastWritten(early + resources, PWR_CR, Load(old(regs), PWR_CR)), 0x0000_0100)
      ensures done ==> forall q :: Plain(q) && q !in {PWR_CR, PRLH, PRLL} ==>
                Load(regs, q) == LastWritten(early + resources, q, Load(old(regs), q))
    {
      hide TestValue, ClockCfg, Plain, LastWritten, Or, AndNot, HighPart, LowPart, Stored, StoredAll, Load;
      PlainIsNot();
      done := ClockSetup(early, cfg, polls);
      if done {
        AvoidsEach(resources);
        StoreAll(resources);
        forall q ensures LastWritten(early + resources, q, Load(old(regs), q)) ==
                         LastWritten(resources, q, LastWritten(early, q, Load(old(regs), q))) {
          LastWrittenAppend(early, resources, q, Load(old(regs), q));
        }
        PwrIsPlain();
        done := RtcInit(prescaler, polls);
      }
    }
  }

  lemma AvoidsEach(writes: seq<(Reg, bv32)>)
    ensures forall addrs: set<nat>, a :: Avoids(writes, addrs) && a in addrs ==> Avoids(writes, {a})
  {
  }

  lemma FlatStoreIsStored(f: File, r: Reg, v: bv32)
    requires StoreImpl(f, r, v, 1).Some?
    ensures StoreImpl(f, r, v, 1) == Some(Stored(f, r, v))
  {
    hide RULES, Fires;
    StoreIsFlatIff(f, r, v);
    QuietReact(f[r := v], r.addr, Load(f, r), RULES, 0);
    QuietReact(f[r := v], r.addr, Load(f, r), RULES, 1);
    StoreNestsAtMostTwice(f, r, v, 2);
  }

  lemma DbpStored(f: File)
    ensures Load(AfterSet(f, DBP), PWR_CR) == Or(Load(f, PWR_CR), 0x0000_0100)
    ensures forall r :: r != PWR_CR ==> Load(AfterSet(f, DBP), r) == Load(f, r)
  {
    hide AssignBits, Stored, Or;
    SetIsOr(Load(f, PWR_CR), 0x0000_0100);
    StoredUnwatched(f, PWR_CR, Assign(Load(f, PWR_CR), DBP));
  }

  /** The reset values satisfy both conditions, so the simulated system boots; switching the
      oscillator on by hand before its ready flag can follow does not. */
  lemma ResetBoots()
    ensures ClockReady(map[]) && RtcReady(map[])
    ensures !ClockReady(map[CR := 0x0001_0083])
  {
  }
}
