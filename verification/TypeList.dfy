/** Typelists: nested lists of types are values of Node, and the template recursions over
    parameter packs are functions over sequences. */
module TypeLists {

  /** A template argument of typelist<...>: void, an element type, or another typelist. */
  datatype Node<E> = Void | Item(e: E) | List(nodes: seq<Node<E>>)

  /** make_typelist<list_type, Tp...>: appends the arguments one by one to a list. Appending a
      typelist appends its elements. */
  function MakeTypelist<E>(list: seq<E>, nodes: seq<Node<E>>): seq<E>
    decreases nodes
  {
    if nodes == [] then list
    else
      match nodes[0]
      case Void => MakeTypelist(list, nodes[1..])
      case Item(e) => MakeTypelist(list + [e], nodes[1..])
      case List(inner) => MakeTypelist(list + MakeTypelist([], inner), nodes[1..])
  }

  /** typelist<Tp...> */
  function Flatten<E>(nodes: seq<Node<E>>): seq<E> {
    MakeTypelist([], nodes)
  }

  lemma {:induction false} MakeTypelistAppends<E>(list: seq<E>, nodes: seq<Node<E>>)
    ensures MakeTypelist(list, nodes) == list + Flatten(nodes)
    decreases |nodes|
  {
    hide MakeTypelist;
    if nodes == [] {
      MakeTypelistNone(list);
      MakeTypelistNone<E>([]);
      assert list + [] == list;
    } else {
      var head, rest := Leaves(nodes[0]), nodes[1..];
      MakeTypelistTakesOne(list, nodes);
      MakeTypelistTakesOne([], nodes);
      MakeTypelistAppends(list + head, rest);
      MakeTypelistAppends([] + head, rest);
      assert [] + head == head && (list + head) + Flatten(rest) == list + (head + Flatten(rest));
    }
  }

  lemma MakeTypelistNone<E>(list: seq<E>)
    ensures MakeTypelist(list, []) == list
  {
  }

  /** One argument of the pack: what it flattens to is appended to the list. */
  lemma MakeTypelistTakesOne<E>(list: seq<E>, nodes: seq<Node<E>>)
    requires nodes != []
    ensures MakeTypelist(list, nodes) == MakeTypelist(list + Leaves(nodes[0]), nodes[1..])
  {
    assert list + [] == list;
  }

  /** The leaves of an argument, left to right. */
  function Leaves<E>(node: Node<E>): seq<E> {
    match node
    case Void => []
    case Item(e) => [e]
    case List(nodes) => Flatten(nodes)
  }

  lemma FlattenCons<E>(node: Node<E>, nodes: seq<Node<E>>)
    ensures Flatten([node] + nodes) == Leaves(node) + Flatten(nodes)
  {
    assert ([node] + nodes)[1..] == nodes;
    assert [] + Leaves(node) == Leaves(node);
    MakeTypelistAppends(Leaves(node), nodes);
  }

  /** Flattening distributes over concatenation of argument lists. */
  lemma {:induction false} FlattenAppend<E>(a: seq<Node<E>>, b: seq<Node<E>>)
    ensures Flatten(a + b) == Flatten(a) + Flatten(b)
    decreases |a|
  {
    if a == [] {
      assert a + b == b;
    } else {
      FlattenAppend(a[1..], b);
      FlattenCons(a[0], a[1..]);
      FlattenCons(a[0], a[1..] + b);
      assert [a[0]] + a[1..] == a && [a[0]] + (a[1..] + b) == a + b;
    }
  }

  function Items<E>(s: seq<E>): seq<Node<E>> {
    if s == [] then [] else [Item(s[0])] + Items(s[1..])
  }

  /** A flat list is unchanged by flattening, so flattening twice is flattening once. */
  lemma {:induction false} FlattenItems<E>(s: seq<E>)
    ensures Flatten(Items(s)) == s
  {
    if s != [] {
      FlattenItems(s[1..]);
      FlattenCons(Item(s[0]), Items(s[1..]));
    }
  }

  /** Grouping arguments into a nested typelist, anywhere, changes nothing; neither does void. */
  lemma NestingIsIrrelevant<E>(a: seq<Node<E>>, b: seq<Node<E>>, c: seq<Node<E>>)
    ensures Flatten(a + [List(b)] + c) == Flatten(a + b + c) == Flatten(a + [Void] + b + [Void] + c)
  {
    FlattenAppend(a + [List(b)], c);
    FlattenAppend(a, [List(b)]);
    FlattenCons(List(b), []);
    FlattenAppend(a + b, c);
    FlattenAppend(a, b);
    FlattenAppend(a + [Void] + b + [Void], c);
    FlattenAppend(a + [Void] + b, [Void]);
    FlattenAppend(a + [Void], b);
    FlattenAppend(a, [Void]);
    FlattenCons<E>(Void, []);
    var v: Node<E> := Void;
    assert [List(b)] + [] == [List(b)] && [v] + [] == [v];
  }

  /** make_filtered_list<list_type, condition_type, Args...> */
  function MakeFilteredList<E>(list: seq<E>, condition: E -> bool, args: seq<E>): seq<E>
    decreases |args|
  {
    if args == [] then list
    else MakeFilteredList(if condition(args[0]) then list + [args[0]] else list, condition, args[1..])
  }

  function Filter<E>(condition: E -> bool, args: seq<E>): seq<E> {
    MakeFilteredList([], condition, args)
  }

  lemma {:induction false} MakeFilteredListAppends<E>(list: seq<E>, condition: E -> bool, args: seq<E>)
    ensures MakeFilteredList(list, condition, args) == list + Filter(condition, args)
    decreases |args|
  {
    if args != [] {
      var head := if condition(args[0]) then [args[0]] else [];
      MakeFilteredListAppends(list + head, condition, args[1..]);
      MakeFilteredListAppends([] + head, condition, args[1..]);
      assert list + [] == list;
      assert (list + head) + Filter(condition, args[1..]) == list + (head + Filter(condition, args[1..]));
    }
  }

  lemma FilterCons<E>(condition: E -> bool, e: E, args: seq<E>)
    ensures Filter(condition, [e] + args) == (if condition(e) then [e] else []) + Filter(condition, args)
  {
    assert ([e] + args)[1..] == args;
    var head := if condition(e) then [e] else [];
    assert [] + head == head;
    MakeFilteredListAppends(head, condition, args);
  }

  lemma {:induction false} FilterContains<E>(condition: E -> bool, args: seq<E>, e: E)
    ensures e in Filter(condition, args) <==> e in args && condition(e)
    decreases |args|
  {
    if args != [] {
      FilterCons(condition, args[0], args[1..]);
      assert [args[0]] + args[1..] == args;
      FilterContains(condition, args[1..], e);
    }
  }

  lemma {:induction false} FilterAppend<E>(condition: E -> bool, a: seq<E>, b: seq<E>)
    ensures Filter(condition, a + b) == Filter(condition, a) + Filter(condition, b)
    decreases |a|
  {
    if a == [] {
      assert a + b == b;
    } else {
      FilterAppend(condition, a[1..], b);
      FilterCons(condition, a[0], a[1..]);
      FilterCons(condition, a[0], a[1..] + b);
      assert [a[0]] + a[1..] == a && [a[0]] + (a[1..] + b) == a + b;
    }
  }

  /** make_unique_list<list_type, Args...> */
  function MakeUniqueList<E(==)>(list: seq<E>, args: seq<E>): seq<E>
    decreases |args|
  {
    if args == [] then list
    else MakeUniqueList(if args[0] in list then list else list + [args[0]], args[1..])
  }

  /** The elements that do not occur earlier in the list, in order. */
  function FirstOccurrences<E(==)>(s: seq<E>): seq<E> {
    if s == [] then []
    else
      var init, last := s[..|s| - 1], s[|s| - 1];
      FirstOccurrences(init) + (if last in init then [] else [last])
  }

  ghost predicate NoDuplicates<E>(s: seq<E>) {
    forall i, j :: 0 <= i < j < |s| ==> s[i] != s[j]
  }

  lemma {:induction false} FirstOccurrencesProperties<E>(s: seq<E>)
    ensures NoDuplicates(FirstOccurrences(s))
    ensures forall e :: e in FirstOccurrences(s) <==> e in s
  {
    if s != [] {
      FirstOccurrencesProperties(s[..|s| - 1]);
      assert s == s[..|s| - 1] + [s[|s| - 1]];
    }
  }

  /** What a list starts with is decided by what its argument list starts with. */
  lemma {:induction false} FirstOccurrencesPrefix<E>(s: seq<E>, n: nat)
    requires n <= |s|
    ensures FirstOccurrences(s[..n]) <= FirstOccurrences(s)
    decreases |s|
  {
    if n < |s| {
      var init := s[..|s| - 1];
      FirstOccurrencesPrefix(init, n);
      assert init[..n] == s[..n];
    } else {
      assert s[..n] == s;
    }
  }

  lemma {:induction false} MakeUniqueListStep<E>(done: seq<E>, args: seq<E>)
    ensures MakeUniqueList(FirstOccurrences(done), args) == FirstOccurrences(done + args)
    decreases |args|
  {
    hide MakeUniqueList, FirstOccurrences;
    if args == [] {
      assert done + args == done;
      MakeUniqueListNone(FirstOccurrences(done));
    } else {
      var more, rest := done + [args[0]], args[1..];
      FirstOccurrencesOneMore(done, args[0]);
      MakeUniqueListTakesOne(FirstOccurrences(done), args);
      MakeUniqueListStep(more, rest);
      assert more + rest == done + args;
    }
  }

  lemma MakeUniqueListNone<E>(list: seq<E>)
    ensures MakeUniqueList(list, []) == list
  {
  }

  lemma MakeUniqueListTakesOne<E>(list: seq<E>, args: seq<E>)
    requires args != []
    ensures MakeUniqueList(list, args) == MakeUniqueList(if args[0] in list then list else list + [args[0]], args[1..])
  {
  }

  lemma FirstOccurrencesOneMore<E>(done: seq<E>, e: E)
    ensures FirstOccurrences(done + [e]) ==
            if e in FirstOccurrences(done) then FirstOccurrences(done) else FirstOccurrences(done) + [e]
  {
    FirstOccurrencesProperties(done);
    assert (done + [e])[..|done|] == done;
  }

  /** filter_unique keeps exactly the first occurrences. */
  lemma UniqueListIsFirstOccurrences<E>(s: seq<E>)
    ensures MakeUniqueList([], s) == FirstOccurrences(s)
  {
    MakeUniqueListStep([], s);
    assert [] + s == s;
  }
}
