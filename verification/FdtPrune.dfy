/** Printing a device tree to a depth: what is left of the whole tree, which streams are accepted, and the lines
    as text. */
module FdtPrune {
  import opened FdtTree
  import opened FdtPrint

  /** The whole tree, whatever its depth: a line for every node's beginning and end, property and NOP. */
  function Whole(n: Node, level: nat): seq<Line>
    decreases n, 1
  {
    [Open(level, n.name)] + WholeItems(n.items, level + 1) + [Close(level)]
  }

  function WholeItem(item: Item, level: nat): seq<Line>
    decreases item, 2
  {
    match item
    case PropItem(name, data) => [Property(level, name, data)]
    case NopItem => [NopMark(level)]
    case Child(node) => Whole(node, level)
  }

  function WholeItems(items: seq<Item>, level: nat): seq<Line>
    decreases items, 0
  {
    if items == [] then [] else WholeItem(items[0], level) + WholeItems(items[1..], level)
  }

  /** A line is kept up to the depth asked for; NOP marks always are. */
  predicate Kept(line: Line, depth: int) {
    match line
    case Open(level, _) => level <= depth
    case Close(level) => level <= depth
    case Property(level, _, _) => level <= depth
    case _ => true
  }

  function Pruned(lines: seq<Line>, depth: int): seq<Line> {
    if lines == [] then [] else (if Kept(lines[0], depth) then [lines[0]] else []) + Pruned(lines[1..], depth)
  }

  lemma {:induction false} PrunedJoin(x: seq<Line>, y: seq<Line>, depth: int)
    ensures Pruned(x + y, depth) == Pruned(x, depth) + Pruned(y, depth)
    decreases |x|
  {
    if x == [] {
      assert x + y == y;
    } else {
      var first := if Kept(x[0], depth) then [x[0]] else [];
      assert (x + y)[1..] == x[1..] + y;
      PrunedJoin(x[1..], y, depth);
      LinesAssociate(first, Pruned(x[1..], depth), Pruned(y, depth));
    }
  }

  lemma LinesAssociate(a: seq<Line>, b: seq<Line>, c: seq<Line>)
    ensures a + (b + c) == (a + b) + c
  {
  }

  lemma PrunedOne(line: Line, depth: int)
    ensures Pruned([line], depth) == if Kept(line, depth) then [line] else []
  {
    assert [line][1..] == [];
  }

  /** Printing to a depth is printing everything and keeping the lines up to that depth, in order. */
  lemma {:induction false} PrettyIsPruned(n: Node, level: nat, depth: int)
    ensures Pretty(n, level, depth) == Pruned(Whole(n, level), depth)
    decreases n, 1
  {
    var mid := WholeItems(n.items, level + 1);
    ItemsArePruned(n.items, level + 1, depth);
    PrunedOne(Open(level, n.name), depth);
    PrunedOne(Close(level), depth);
    PrunedJoin([Open(level, n.name)], mid, depth);
    PrunedJoin([Open(level, n.name)] + mid, [Close(level)], depth);
  }

  lemma {:induction false} ItemsArePruned(items: seq<Item>, level: nat, depth: int)
    ensures PrettyItems(items, level, depth) == Pruned(WholeItems(items, level), depth)
    decreases items, 0
  {
    if items != [] {
      ItemIsPruned(items[0], level, depth);
      ItemsArePruned(items[1..], level, depth);
      PrunedJoin(WholeItem(items[0], level), WholeItems(items[1..], level), depth);
    }
  }

  lemma {:induction false} ItemIsPruned(item: Item, level: nat, depth: int)
    ensures PrettyItem(item, level, depth) == Pruned(WholeItem(item, level), depth)
    decreases item, 2
  {
    match item
    case Child(node) => PrettyIsPruned(node, level, depth);
    case PropItem(name, data) => PrunedOne(Property(level, name, data), depth);
    case NopItem => PrunedOne(NopMark(level), depth);
  }

  /** What the loop emits for a node it accepts: the whole tree, pruned. */
  lemma LoopPrunes(n: Node, rest: seq<Token>, depth: int)
    requires Flat(Flatten(n) + rest, 0, depth).rc == 0
    ensures Flat(Flatten(n) + rest, 0, depth).out == Pruned(Whole(n, 0), depth)
  {
    FlatRefinesPretty(n, rest, depth);
    PrettyIsPruned(n, 0, depth);
  }

  // ---------------------------------------------------------------- what is accepted

  /** When the loop, inside a node, comes to a good end, the stream holds the rest of that node. */
  lemma {:induction false} RestOfNode(ts: seq<Token>, level: nat, depth: int)
    returns (items: seq<Item>, rest: seq<Token>)
    requires 1 <= level < MAX_LEVEL && Flat(ts, level, depth).rc == 0
    ensures ts == FlattenItems(items) + ([EndNode] + rest) && level + HeightItems(items) < MAX_LEVEL
    ensures level > 1 ==> Flat(rest, level - 1, depth).rc == 0
    decreases |ts|
  {
    var later := ts[1..];
    assert ts == [ts[0]] + later;
    match ts[0]
    case EndNode =>
      items, rest := [], later;
    case Prop(name, data) =>
      items, rest := RestOfNode(later, level, depth);
      LeafInFront(PropItem(name, data), ts[0], items, rest);
      items := [PropItem(name, data)] + items;
    case Nop =>
      items, rest := RestOfNode(later, level, depth);
      LeafInFront(NopItem, ts[0], items, rest);
      items := [NopItem] + items;
    case BeginNode(name) =>
      var inner, behind := RestOfNode(later, level + 1, depth);
      items, rest := RestOfNode(behind, level, depth);
      ChildInFront(name, inner, behind, items, rest);
      items := [Child(Node(name, inner))] + items;
    case End =>
  }

  lemma HeightOfCons(item: Item, items: seq<Item>)
    ensures HeightItems([item] + items)
         == if HeightItem(item) > HeightItems(items) then HeightItem(item) else HeightItems(items)
  {
    assert ([item] + items)[1..] == items;
  }

  /** A property or a NOP in front of other items. */
  lemma LeafInFront(item: Item, t: Token, items: seq<Item>, rest: seq<Token>)
    requires FlattenItem(item) == [t] && !item.Child?
    ensures FlattenItems([item] + items) + ([EndNode] + rest) == [t] + (FlattenItems(items) + ([EndNode] + rest))
    ensures HeightItems([item] + items) == HeightItems(items)
  {
    FlattenCons([item] + items, [EndNode] + rest);
    HeightOfCons(item, items);
    assert ([item] + items)[1..] == items;
  }

  /** A node in front of other items. */
  lemma ChildInFront(name: string, inner: seq<Item>, behind: seq<Token>, items: seq<Item>, rest: seq<Token>)
    requires behind == FlattenItems(items) + ([EndNode] + rest)
    ensures var all := [Child(Node(name, inner))] + items;
            && [BeginNode(name)] + (FlattenItems(inner) + ([EndNode] + behind))
               == FlattenItems(all) + ([EndNode] + rest)
            && HeightItems(all) == if HeightItems(inner) + 1 > HeightItems(items) then HeightItems(inner) + 1
                                   else HeightItems(items)
  {
    var node := Node(name, inner);
    FlattenCons([Child(node)] + items, [EndNode] + rest);
    HeightOfCons(Child(node), items);
    assert Flatten(node) + behind == [BeginNode(name)] + (FlattenItems(inner) + ([EndNode] + behind));
  }

  lemma {:induction false} ZeroOrOne(ts: seq<Token>, level: nat, depth: int)
    ensures Flat(ts, level, depth).rc in {0, 1}
    decreases |ts|
  {
    if ts != [] {
      var step := StepOf(ts[0], level, depth);
      if step.Go? {
        ZeroOrOne(ts[1..], step.level, depth);
      }
    }
  }

  /** MAIN RESULT: of all streams that start with the beginning of a node, the loop returns 0 for exactly those
      that start with a whole node less than 32 levels deep; any other, cut off or nested too deep, fails. */
  lemma AcceptedIff(ts: seq<Token>, depth: int)
    requires ts != [] && ts[0].BeginNode?
    ensures Flat(ts, 0, depth).rc == 0 <==> exists n, rest :: ts == Flatten(n) + rest && Height(n) < 32
    ensures Flat(ts, 0, depth).rc in {0, 1}
  {
    ZeroOrOne(ts, 0, depth);
    if Flat(ts, 0, depth).rc == 0 {
      var items, rest := RestOfNode(ts[1..], 1, depth);
      var n := Node(ts[0].name, items);
      assert ts == [ts[0]] + ts[1..];
      assert Flatten(n) + rest == [BeginNode(n.name)] + (FlattenItems(items) + ([EndNode] + rest));
      assert ts == Flatten(n) + rest && Height(n) < 32;
    }
    if n, rest :| ts == Flatten(n) + rest && Height(n) < 32 {
      FlatRefinesPretty(n, rest, depth);
    }
  }

  // ---------------------------------------------------------------- text

  /** Lines as text, for instance. */
  lemma TextOfNodes(show: Show)
    ensures Text(Open(0, ""), show) == "/ {\n" && Text(Close(0), show) == "};\n"
    ensures Text(Open(2, "cpu"), show) == "\t\tcpu {\n" && Text(Close(2), show) == "\t\t};\n"
  {
    assert Tabs(0) == "" && Tabs(2) == "\t\t";
  }

  lemma TextOfProperties(show: Show)
    ensures Text(Property(1, "a", []), show) == "\ta;\n"
    ensures Text(Property(1, "reg", [1]), show) == "\treg = " + show([1]) + ";\n"
  {
    assert Tabs(1) == "\t";
  }

  lemma TextOfMarks(show: Show)
    ensures Text(NopMark(1), show) == "\t/* NOP */\n" && Text(TooDeep, show) == "Nested too deep, aborting.\n"
  {
    assert Tabs(1) == "\t";
  }
}
