/** Resource lists: the nested typelists that collect register masks and interrupt handlers, and
    the two things generated from them, register configuration and the vector table. */
module VectorTables {
  import opened TypeLists
  import opened Wrappers
  import opened RegMasks
  import opened RegLists

  /** The address of an interrupt routine. */
  type Isr = nat

  datatype Resource = MaskResource(m: RegMask) | IrqHandler(irqn: int, isr: Isr) | OtherResource(tag: nat)

  // ---------- register masks from resources ----------

  function Payloads(rs: seq<Resource>): seq<RegMask>
    requires forall r :: r in rs ==> r.MaskResource?
  {
    if rs == [] then [] else [rs[0].m] + Payloads(rs[1..])
  }

  /** make_reglist<Tp...>: the masks among the resources. */
  function MakeRegList(resources: seq<Node<Resource>>): seq<RegMask> {
    var masks := Filter((r: Resource) => r.MaskResource?, Flatten(resources));
    FilterAll(Flatten(resources));
    Payloads(masks)
  }

  lemma FilterAll(rs: seq<Resource>)
    ensures forall r :: r in Filter((r: Resource) => r.MaskResource?, rs) ==> r.MaskResource?
  {
    forall r | r in Filter((r: Resource) => r.MaskResource?, rs) ensures r.MaskResource? {
      FilterContains((r: Resource) => r.MaskResource?, rs, r);
    }
  }

  lemma {:induction false} PayloadsContain(rs: seq<Resource>, m: RegMask)
    requires forall r :: r in rs ==> r.MaskResource?
    ensures m in Payloads(rs) <==> MaskResource(m) in rs
  {
    if rs != [] {
      PayloadsContain(rs[1..], m);
      assert MaskResource(m) == rs[0] <==> m == rs[0].m;
      assert rs == [rs[0]] + rs[1..];
    }
  }

  lemma MakeRegListContains(resources: seq<Node<Resource>>, m: RegMask)
    ensures m in MakeRegList(resources) <==> MaskResource(m) in Flatten(resources)
  {
    var isMask := (r: Resource) => r.MaskResource?;
    FilterContains(isMask, Flatten(resources), MaskResource(m));
    FilterAll(Flatten(resources));
    PayloadsContain(Filter(isMask, Flatten(resources)), m);
  }

  /** Reordering the resources of a project, at any depth, changes neither whether its register
      configuration compiles nor what it does. */
  lemma ResourceOrderIsIrrelevant(a: seq<Node<Resource>>, b: seq<Node<Resource>>, f: File, r: Reg)
    requires forall x :: x in Flatten(a) <==> x in Flatten(b)
    ensures var ma, mb := MakeRegList(a), MakeRegList(b);
            && (Compile(ma).Some? <==> Compile(mb).Some?)
            && (Compile(ma).Some? ==>
                  Load(SetAll(f, Compile(ma).value), r) == Load(SetAll(f, Compile(mb).value), r))
  {
    forall m ensures m in MakeRegList(a) <==> m in MakeRegList(b) {
      MakeRegListContains(a, m);
      MakeRegListContains(b, m);
    }
    SetDependsOnElements(MakeRegList(a), MakeRegList(b), f, r);
  }

  // ---------- the vector table ----------

  const RESET_IRQN: int := -15

  /** irq::reserved_irqn */
  predicate ReservedIrqn(irqn: int) {
    irqn == -3 || irqn == -6 || irqn == -7 || irqn == -8 || irqn == -9
  }

  lemma ReservedAre(irqn: int)
    ensures ReservedIrqn(irqn) <==> irqn in {-9, -8, -7, -6, -3}
  {
  }

  /** irqn_list<list, irqn> */
  function IrqnList(list: seq<Resource>, irqn: int): seq<Resource> {
    Filter((r: Resource) => r.IrqHandler? && r.irqn == irqn, Filter((r: Resource) => r.IrqHandler?, list))
  }

  lemma IrqnListContains(list: seq<Resource>, irqn: int, r: Resource)
    ensures r in IrqnList(list, irqn) <==> r in list && r.IrqHandler? && r.irqn == irqn
  {
    FilterContains((r: Resource) => r.IrqHandler?, list, r);
    FilterContains((r: Resource) => r.IrqHandler? && r.irqn == irqn, Filter((r: Resource) => r.IrqHandler?, list), r);
  }

  /** The routine of one table entry; None when unique_element finds more than one handler. The
      lookup is made, and can fail, for reserved numbers too. */
  function Entry(list: seq<Resource>, irqn: int, defaultIsr: Isr): Option<Isr> {
    var found := IrqnList(list, irqn);
    if |found| > 1 then None
    else if ReservedIrqn(irqn) || found == [] then Some(defaultIsr)
    else
      IrqnListContains(list, irqn, found[0]);
      Some(found[0].isr)
  }

  /** make_vector_table<N, irqn_offset, list, default_isr, ...>, the entries built so far being
      "table". */
  function MakeVectorTable(n: nat, irqnOffset: int, list: seq<Resource>, defaultIsr: Isr, table: seq<Isr>): Option<seq<Isr>> {
    if n == 0 then Some(table)
    else
      match Entry(list, n - 1 + irqnOffset, defaultIsr)
      case None => None
      case Some(isr) => MakeVectorTable(n - 1, irqnOffset, list, defaultIsr, [isr] + table)
  }

  /** vector_table<stack_top, list, default_isr>: the entries behind the stack pointer. */
  function VectorTable(resources: seq<Node<Resource>>, channels: nat, defaultIsr: Isr): Option<seq<Isr>> {
    MakeVectorTable(channels - RESET_IRQN, RESET_IRQN, Flatten(resources), defaultIsr, [])
  }

  lemma {:induction false} MakeVectorTableShape(n: nat, offset: int, list: seq<Resource>, defaultIsr: Isr, table: seq<Isr>)
    ensures var t := MakeVectorTable(n, offset, list, defaultIsr, table);
            && (t.Some? <==> forall irqn :: offset <= irqn < offset + n ==> Entry(list, irqn, defaultIsr).Some?)
            && (t.Some? ==>
                  && |t.value| == n + |table| && t.value[n..] == table
                  && forall irqn :: offset <= irqn < offset + n ==> Entry(list, irqn, defaultIsr) == Some(t.value[irqn - offset]))
  {
    hide Entry;
    if n > 0 {
      var e := Entry(list, n - 1 + offset, defaultIsr);
      if e.Some? {
        var t := MakeVectorTable(n, offset, list, defaultIsr, table);
        MakeVectorTableShape(n - 1, offset, list, defaultIsr, [e.value] + table);
        if t.Some? {
          assert t.value[n - 1] == t.value[n - 1..][0] == e.value;
          assert t.value[n..] == t.value[n - 1..][1..] == table;
        }
      }
    }
  }

  /** At most one handler is listed for the interrupt number. */
  ghost predicate AtMostOneHandler(list: seq<Resource>, irqn: int) {
    forall i, j :: 0 <= i < j < |list| ==>
      !(list[i].IrqHandler? && list[j].IrqHandler? && list[i].irqn == irqn == list[j].irqn)
  }

  ghost predicate HasHandler(list: seq<Resource>, irqn: int) {
    exists r :: r in list && r.IrqHandler? && r.irqn == irqn
  }

  lemma {:induction false} AtMostOneHandlerIff(list: seq<Resource>, irqn: int)
    ensures |IrqnList(list, irqn)| <= 1 <==> AtMostOneHandler(list, irqn)
    ensures |IrqnList(list, irqn)| == 0 <==> !HasHandler(list, irqn)
  {
    if list == [] {
      assert IrqnList(list, irqn) == [];
    } else {
      var h, rest := list[0], list[1..];
      AtMostOneHandlerIff(rest, irqn);
      assert list == [h] + rest;
      IrqnListCons(h, rest, irqn);
      assert forall i :: 0 < i < |list| ==> list[i] == rest[i - 1];
      assert forall i :: 0 <= i < |rest| ==> rest[i] == list[i + 1];
    }
  }

  lemma IrqnListCons(h: Resource, rest: seq<Resource>, irqn: int)
    ensures IrqnList([h] + rest, irqn) == (if h.IrqHandler? && h.irqn == irqn then [h] else []) + IrqnList(rest, irqn)
  {
    FilterCons((r: Resource) => r.IrqHandler?, h, rest);
    if h.IrqHandler? {
      FilterCons((r: Resource) => r.IrqHandler? && r.irqn == irqn, h, Filter((r: Resource) => r.IrqHandler?, rest));
    }
  }

  /** Main result: the table compiles exactly when no interrupt number in its range has two
      handlers; it then has one entry per number from reset upward, holding the handler listed for
      the number, or the default one for absent and reserved numbers. */
  lemma TableEntries(resources: seq<Node<Resource>>, channels: nat, defaultIsr: Isr)
    ensures var list, t := Flatten(resources), VectorTable(resources, channels, defaultIsr);
            && (t.Some? <==> forall irqn :: -15 <= irqn < channels ==> AtMostOneHandler(list, irqn))
            && (t.Some? ==>
                  && |t.value| == channels + 15
                  && (forall h :: h in list && h.IrqHandler? && -15 <= h.irqn < channels && h.irqn !in {-9, -8, -7, -6, -3} ==>
                        t.value[h.irqn + 15] == h.isr)
                  && (forall irqn :: -15 <= irqn < channels && (irqn in {-9, -8, -7, -6, -3} || !HasHandler(list, irqn)) ==>
                        t.value[irqn + 15] == defaultIsr))
  {
    hide Entry, ReservedIrqn, HasHandler, AtMostOneHandler;
    var list, t := Flatten(resources), VectorTable(resources, channels, defaultIsr);
    MakeVectorTableShape(channels + 15, RESET_IRQN, list, defaultIsr, []);
    forall irqn | -15 <= irqn < channels
      ensures Entry(list, irqn, defaultIsr).Some? <==> AtMostOneHandler(list, irqn)
    {
      EntryMeaning(list, irqn, defaultIsr);
    }
    if t.Some? {
      forall h | h in list && h.IrqHandler? && -15 <= h.irqn < channels && h.irqn !in {-9, -8, -7, -6, -3}
        ensures t.value[h.irqn + 15] == h.isr
      {
        ReservedAre(h.irqn);
        EntryMeaning(list, h.irqn, defaultIsr);
      }
      forall irqn | -15 <= irqn < channels && (irqn in {-9, -8, -7, -6, -3} || !HasHandler(list, irqn))
        ensures t.value[irqn + 15] == defaultIsr
      {
        ReservedAre(irqn);
        EntryMeaning(list, irqn, defaultIsr);
      }
    }
  }

  /** What an entry of the table holds, without the typelist filters. */
  lemma EntryMeaning(list: seq<Resource>, irqn: int, defaultIsr: Isr)
    ensures var e := Entry(list, irqn, defaultIsr);
            && (e.Some? <==> AtMostOneHandler(list, irqn))
            && (e.Some? && !ReservedIrqn(irqn) ==>
                  forall h :: h in list && h.IrqHandler? && h.irqn == irqn ==> e.value == h.isr)
            && (e.Some? && (ReservedIrqn(irqn) || !HasHandler(list, irqn)) ==> e.value == defaultIsr)
  {
    AtMostOneHandlerIff(list, irqn);
    var found := IrqnList(list, irqn);
    forall h | h in list && h.IrqHandler? && h.irqn == irqn ensures h in found {
      IrqnListContains(list, irqn, h);
    }
  }

  // ---------- order of resources ----------

  lemma {:induction false} FilterMultiset(condition: Resource -> bool, s: seq<Resource>, e: Resource)
    ensures multiset(Filter(condition, s))[e] == if condition(e) then multiset(s)[e] else 0
    decreases |s|
  {
    if s != [] {
      FilterMultiset(condition, s[1..], e);
      FilterCons(condition, s[0], s[1..]);
      assert s == [s[0]] + s[1..];
    }
  }

  lemma FilterOfPermutation(condition: Resource -> bool, a: seq<Resource>, b: seq<Resource>)
    requires multiset(a) == multiset(b)
    ensures multiset(Filter(condition, a)) == multiset(Filter(condition, b))
  {
    forall e ensures multiset(Filter(condition, a))[e] == multiset(Filter(condition, b))[e] {
      FilterMultiset(condition, a, e);
      FilterMultiset(condition, b, e);
    }
  }

  lemma EntryOfPermutation(a: seq<Resource>, b: seq<Resource>, irqn: int, defaultIsr: Isr)
    requires multiset(a) == multiset(b)
    ensures Entry(a, irqn, defaultIsr) == Entry(b, irqn, defaultIsr)
  {
    FilterOfPermutation((r: Resource) => r.IrqHandler?, a, b);
    FilterOfPermutation((r: Resource) => r.IrqHandler? && r.irqn == irqn,
                        Filter((r: Resource) => r.IrqHandler?, a), Filter((r: Resource) => r.IrqHandler?, b));
    var fa, fb := IrqnList(a, irqn), IrqnList(b, irqn);
    assert |fa| == |multiset(fa)| == |multiset(fb)| == |fb|;
    if |fa| == 1 {
      assert fa[0] in multiset(fb);
    }
  }

  lemma {:induction false} MakeVectorTableOfPermutation(n: nat, offset: int, a: seq<Resource>, b: seq<Resource>, d: Isr, table: seq<Isr>)
    requires multiset(a) == multiset(b)
    ensures MakeVectorTable(n, offset, a, d, table) == MakeVectorTable(n, offset, b, d, table)
  {
    hide Entry;
    if n > 0 {
      EntryOfPermutation(a, b, n - 1 + offset, d);
      var e := Entry(a, n - 1 + offset, d);
      if e.Some? {
        MakeVectorTableOfPermutation(n - 1, offset, a, b, d, [e.value] + table);
      }
    }
  }

  /** Permuting the resources gives the same table, or the same compile-time failure. */
  lemma TableIsOrderIndependent(a: seq<Node<Resource>>, b: seq<Node<Resource>>, channels: nat, defaultIsr: Isr)
    requires multiset(Flatten(a)) == multiset(Flatten(b))
    ensures VectorTable(a, channels, defaultIsr) == VectorTable(b, channels, defaultIsr)
  {
    MakeVectorTableOfPermutation(channels + 15, RESET_IRQN, Flatten(a), Flatten(b), defaultIsr, []);
  }
}
