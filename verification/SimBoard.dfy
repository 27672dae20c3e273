/** The register simulation of the stm32f103stk demo: a store triggers reactions that store
    again, and the boot code busy-waits for what the reactions set. */
module SimBoards {
  import opened Wrappers
  import opened RegMasks
  import opened RegLists

  // ---------- registers and fields ----------

  const CR: Reg := Reg(0x4002_1000, 0x0000_0083)
  const CFGR: Reg := Reg(0x4002_1004, 0)
  const BDCR: Reg := Reg(0x4002_1020, 0)
  const CRL: Reg := Reg(0x4000_2804, 0x0000_0020)
  const PRLH: Reg := Reg(0x4000_2808, 0)
  const PRLL: Reg := Reg(0x4000_280C, 0x0000_8000)
  const PWR_CR: Reg := Reg(0x4000_7000, 0)
  const ADC1_SR: Reg := Reg(0x4001_2400, 0)
  const ADC1_CR2: Reg := Reg(0x4001_2408, 0)
  const SPI1_CR1: Reg := Reg(0x4001_3000, 0)
  const SPI1_SR: Reg := Reg(0x4001_3008, 0x0000_0002)

  /** regbits<> of width 1 and regval<bit, 1>: the same set and clear mask. */
  function Flag(r: Reg, bits: bv32): RegMask {
    Mask(r, bits, bits)
  }

  const HSEON: RegMask := Flag(CR, 0x0001_0000)
  const HSERDY: RegMask := Flag(CR, 0x0002_0000)
  const PLLON: RegMask := Flag(CR, 0x0100_0000)
  const PLLRDY: RegMask := Flag(CR, 0x0200_0000)
  const SW_PLL: RegMask := Mask(CFGR, 0x2, 0x3)
  const SWS_PLL: RegMask := Mask(CFGR, 0x8, 0xC)
  const LSEON: RegMask := Flag(BDCR, 0x0000_0001)
  const LSERDY: RegMask := Flag(BDCR, 0x0000_0002)
  const RTCSEL_LSE: RegMask := Mask(BDCR, 0x0000_0100, 0x0000_0300)
  const RTCEN: RegMask := Flag(BDCR, 0x0000_8000)
  const BDRST: RegMask := Flag(BDCR, 0x0001_0000)
  const RSF: RegMask := Flag(CRL, 0x08)
  const CNF: RegMask := Flag(CRL, 0x10)
  const RTOFF: RegMask := Flag(CRL, 0x20)
  const DBP: RegMask := Flag(PWR_CR, 0x0000_0100)
  const EOC: RegMask := Flag(ADC1_SR, 0x0000_0002)
  const SWSTART: RegMask := Flag(ADC1_CR2, 0x0040_0000)
  const SPE: RegMask := Flag(SPI1_CR1, 0x0000_0040)
  const TXE: RegMask := Flag(SPI1_SR, 0x0000_0002)
  const RXNE: RegMask := Flag(SPI1_SR, 0x0000_0001)

  // ---------- the reactions ----------

  /** if(bits_set<trigger>()) or if(bits_cleared<trigger>()), and the fields set in response. */
  datatype Rule = OnSet(trigger: RegMask, responses: seq<RegMask>) | OnCleared(trigger: RegMask, responses: seq<RegMask>)

  const RULES: seq<Rule> := [
    OnSet(HSEON, [HSERDY]),
    OnSet(PLLON, [PLLRDY]),
    OnSet(SW_PLL, [SWS_PLL]),
    OnSet(RTCEN, [LSERDY, RSF]),
    OnCleared(RSF, [RSF]),
    OnSet(SWSTART, [EOC]),
    OnSet(SPE, [TXE, RXNE])
  ]

  /** bits_set and bits_cleared: the register stored to is the trigger's, "old" is its value before
      the store, and the current value is read when the rule is reached. */
  predicate Fires(rule: Rule, f: File, addr: nat, old_: bv32) {
    && rule.trigger.reg.addr == addr
    && var now := TestValue(Load(f, rule.trigger.reg), rule.trigger);
       var before := And(old_, rule.trigger.setMask) != 0;
       if rule.OnSet? then now && !before else before && !now
  }

  /** store_impl with at most "depth" nested stores; None when that is not enough. */
  function StoreImpl(f: File, r: Reg, v: bv32, depth: nat): Option<File>
    decreases depth, 0, 0
  {
    if depth == 0 then None
    else React(f[r := v], r.addr, Load(f, r), RULES, depth - 1)
  }

  function React(f: File, addr: nat, old_: bv32, rules: seq<Rule>, depth: nat): Option<File>
    decreases depth, 2, |rules|
  {
    if rules == [] then Some(f)
    else if !Fires(rules[0], f, addr, old_) then React(f, addr, old_, rules[1..], depth)
    else
      match Respond(f, rules[0].responses, depth)
      case None => None
      case Some(f') => React(f', addr, old_, rules[1..], depth)
  }

  function Respond(f: File, responses: seq<RegMask>, depth: nat): Option<File>
    decreases depth, 1, |responses|
  {
    if responses == [] then Some(f)
    else
      match StoreImpl(f, responses[0].reg, Assign(Load(f, responses[0].reg), responses[0]), depth)
      case None => None
      case Some(f') => Respond(f', responses[1..], depth)
  }

  // ---------- reactions do not cascade ----------

  /** Setting a response changes nothing that a rule watches, or sets the flag whose clearing the
      rule watches. */
  predicate Harmless(p: RegMask, rule: Rule) {
    && rule.trigger.setMask != 0
    && (|| p.reg.addr != rule.trigger.reg.addr
        || (p.reg == rule.trigger.reg && And(p.clearMask, rule.trigger.clearMask) == 0
            && (rule.OnCleared? ==> rule.trigger.setMask == rule.trigger.clearMask))
        || (rule.OnCleared? && p == rule.trigger && p.setMask == p.clearMask))
  }

  lemma RulesAreHarmless(a: nat, k: nat, b: nat)
    requires a < |RULES| && k < |RULES[a].responses| && b < |RULES|
    ensures Harmless(RULES[a].responses[k], RULES[b])
  {
  }

  lemma HarmlessDoesNotFire(f: File, p: RegMask, rule: Rule)
    requires Harmless(p, rule)
    ensures !Fires(rule, f[p.reg := Assign(Load(f, p.reg), p)], p.reg.addr, Load(f, p.reg))
  {
    hide TestBits, AssignBits, And, Covers;
    var v, t := Load(f, p.reg), rule.trigger;
    if p.reg == t.reg {
      if And(p.clearMask, t.clearMask) == 0 {
        DisjointAssign(v, p.setMask, p.clearMask, t.setMask, t.clearMask);
      }
      TestImpliesBit(v, t.setMask, t.clearMask);
      SetFlag(v, t.setMask);
    }
  }

  lemma DisjointAssign(v: bv32, s: bv32, c: bv32, s': bv32, c': bv32)
    requires And(c, c') == 0 && Covers(c, s)
    ensures TestBits(AssignBits(v, s, c), s', c') == TestBits(v, s', c')
  {
    assert And(AssignBits(v, s, c), c') == And(v, c');
  }

  lemma TestImpliesBit(v: bv32, s: bv32, c: bv32)
    requires Covers(c, s) && s != 0
    ensures TestBits(v, s, c) ==> And(v, s) != 0
    ensures s == c ==> TestBits(v, s, c) == (And(v, s) != 0)
  {
    if TestBits(v, s, c) && s != c {
      FieldHasBit(v, s, c);
    }
  }

  lemma FieldHasBit(v: bv32, s: bv32, c: bv32)
    requires And(v, c) == s && s != 0 && Covers(c, s)
    ensures And(v, s) != 0
  {
    assert And(v, s) == s;
  }

  lemma SetFlag(v: bv32, s: bv32)
    requires s != 0
    ensures TestBits(AssignBits(v, s, s), s, s)
  {
    assert And(AssignBits(v, s, s), s) == s;
  }

  /** The reactions to a store, each response being an assignment without further reactions. */
  function Reacted(f: File, addr: nat, old_: bv32, rules: seq<Rule>): File
    decreases |rules|
  {
    if rules == [] then f
    else Reacted(if Fires(rules[0], f, addr, old_) then SetAll(f, rules[0].responses) else f, addr, old_, rules[1..])
  }

  /** The register file after a store and all reactions to it. */
  function Stored(f: File, r: Reg, v: bv32): File {
    Reacted(f[r := v], r.addr, Load(f, r), RULES)
  }

  lemma {:induction false} QuietReact(f: File, addr: nat, old_: bv32, rules: seq<Rule>, depth: nat)
    requires forall rule :: rule in rules ==> !Fires(rule, f, addr, old_)
    ensures React(f, addr, old_, rules, depth) == Some(f)
    decreases |rules|
  {
    hide Fires;
    if rules != [] {
      QuietReact(f, addr, old_, rules[1..], depth);
    }
  }

  lemma {:induction false} RespondIsPlain(f: File, ps: seq<RegMask>, depth: nat)
    requires depth > 0
    requires forall p, rule :: p in ps && rule in RULES ==> Harmless(p, rule)
    requires forall p :: p in ps ==> p.setMask != 0
    ensures Respond(f, ps, depth) == Some(SetAll(f, ps))
    decreases |ps|
  {
    hide Fires, Harmless, RULES, Assign;
    if ps != [] {
      var p := ps[0];
      var f' := f[p.reg := Assign(Load(f, p.reg), p)];
      forall rule | rule in RULES ensures !Fires(rule, f', p.reg.addr, Load(f, p.reg)) {
        HarmlessDoesNotFire(f, p, rule);
      }
      QuietReact(f', p.reg.addr, Load(f, p.reg), RULES, depth - 1);
      RespondIsPlain(f', ps[1..], depth);
    }
  }

  lemma RuleIsHarmless(rule: Rule)
    requires rule in RULES
    ensures forall p, other :: p in rule.responses && other in RULES ==> Harmless(p, other)
    ensures forall p :: p in rule.responses ==> p.setMask != 0
    ensures rule.responses != []
  {
    hide Harmless;
    var a: nat :| a < |RULES| && RULES[a] == rule;
    forall p, other | p in rule.responses && other in RULES ensures Harmless(p, other) {
      var k: nat, b: nat :| k < |rule.responses| && rule.responses[k] == p && b < |RULES| && RULES[b] == other;
      RulesAreHarmless(a, k, b);
    }
  }

  lemma {:induction false} ReactIsPlain(f: File, addr: nat, old_: bv32, rules: seq<Rule>, depth: nat)
    requires depth > 0 && forall rule :: rule in rules ==> rule in RULES
    ensures React(f, addr, old_, rules, depth) == Some(Reacted(f, addr, old_, rules))
    decreases |rules|
  {
    hide Fires, Harmless, RULES;
    if rules != [] {
      if Fires(rules[0], f, addr, old_) {
        RuleIsHarmless(rules[0]);
        RespondIsPlain(f, rules[0].responses, depth);
        ReactIsPlain(SetAll(f, rules[0].responses), addr, old_, rules[1..], depth);
      } else {
        ReactIsPlain(f, addr, old_, rules[1..], depth);
      }
    }
  }

  /** Main result on reactions: from any register file, any store terminates with at most two
      levels of store_impl, the reactions being plain assignments in the order of the rules. */
  lemma StoreNestsAtMostTwice(f: File, r: Reg, v: bv32, depth: nat)
    requires depth >= 2
    ensures StoreImpl(f, r, v, depth) == Some(Stored(f, r, v))
  {
    hide RULES;
    ReactIsPlain(f[r := v], r.addr, Load(f, r), RULES, depth - 1);
  }

  /** One level is enough exactly when the store triggers nothing. */
  lemma StoreIsFlatIff(f: File, r: Reg, v: bv32)
    ensures StoreImpl(f, r, v, 1).Some? <==> forall rule :: rule in RULES ==> !Fires(rule, f[r := v], r.addr, Load(f, r))
  {
    hide RULES, Fires;
    FlatReactIff(f[r := v], r.addr, Load(f, r), RULES);
  }

  lemma {:induction false} FlatReactIff(f: File, addr: nat, old_: bv32, rules: seq<Rule>)
    requires forall rule :: rule in rules ==> rule in RULES
    ensures React(f, addr, old_, rules, 0).Some? <==> forall rule :: rule in rules ==> !Fires(rule, f, addr, old_)
    decreases |rules|
  {
    hide RULES, Fires, Harmless;
    if rules != [] {
      RuleIsHarmless(rules[0]);
      FlatReactIff(f, addr, old_, rules[1..]);
      var p := rules[0].responses[0];
      assert StoreImpl(f, p.reg, Assign(Load(f, p.reg), p), 0) == None;
      assert Respond(f, rules[0].responses, 0) == None;
      assert rules == [rules[0]] + rules[1..];
    }
  }
}
