/** A device tree as a token stream (structure block of the Devicetree Specification, section 5.4)
    and as a tree. */
module FdtTree {
  type Byte = x: int | 0 <= x < 256

  datatype Token = BeginNode(name: string) | EndNode | Prop(name: string, data: seq<Byte>) | Nop | End

  /** A node's properties, NOPs and subnodes in the order they appear. */
  datatype Node = Node(name: string, items: seq<Item>)
  datatype Item = PropItem(name: string, data: seq<Byte>) | NopItem | Child(node: Node)

  function Flatten(n: Node): seq<Token>
    decreases n, 1
  {
    [BeginNode(n.name)] + FlattenItems(n.items) + [EndNode]
  }

  function FlattenItem(item: Item): seq<Token>
    decreases item, 2
  {
    match item
    case PropItem(name, data) => [Prop(name, data)]
    case NopItem => [Nop]
    case Child(node) => Flatten(node)
  }

  function FlattenItems(items: seq<Item>): seq<Token>
    decreases items, 0
  {
    if items == [] then [] else FlattenItem(items[0]) + FlattenItems(items[1..])
  }

  /** A stream that starts with items, taken apart at the first item. */
  lemma FlattenCons(items: seq<Item>, rest: seq<Token>)
    ensures FlattenItems(items) + rest ==
              if items == [] then rest else FlattenItem(items[0]) + (FlattenItems(items[1..]) + rest)
  {
  }

  /** The number of nodes on the longest path down from and including the node. */
  function Height(n: Node): nat
    decreases n, 1
  {
    1 + HeightItems(n.items)
  }

  function HeightItem(item: Item): nat
    decreases item, 2
  {
    if item.Child? then Height(item.node) else 0
  }

  function HeightItems(items: seq<Item>): nat
    decreases items, 0
  {
    if items == [] then 0
    else
      var a, b := HeightItem(items[0]), HeightItems(items[1..]);
      if a > b then a else b
  }

  /** The direct children, in order. */
  function Children(items: seq<Item>): seq<Node> {
    if items == [] then []
    else (if items[0].Child? then [items[0].node] else []) + Children(items[1..])
  }
}

/** fdt_print: a loop over tags with a level counter, against the recursive printer it stands for. */
module FdtPrint {
  import opened FdtTree

  const MAX_LEVEL: nat := 32

  /** What one printf call, or one group of them, puts out. */
  datatype Line =
    | Open(level: nat, name: string)
    | Close(level: nat)
    | Property(level: nat, name: string, data: seq<Byte>)
    | NopMark(level: nat)
    | TooDeep

  /** What has been put out, and the return code. */
  datatype Printed = Printed(rc: int, out: seq<Line>)

  /** How a property value is shown; given by print_data. */
  type Show = seq<Byte> -> string

  /** &tabs[MAX_LEVEL - level] */
  function Tabs(level: nat): (s: string)
    ensures |s| == level
  {
    seq(level, i => '\t')
  }

  function Text(line: Line, show: Show): string {
    match line
    case Open(level, name) => Tabs(level) + (if name == "" then "/" else name) + " {\n"
    case Close(level) => Tabs(level) + "};\n"
    case Property(level, name, data) =>
      if data == [] then Tabs(level) + name + ";\n" else Tabs(level) + name + " = " + show(data) + ";\n"
    case NopMark(level) => Tabs(level) + "/* NOP */\n"
    case TooDeep => "Nested too deep, aborting.\n"
  }

  function Texts(lines: seq<Line>, show: Show): (r: seq<string>)
    ensures |r| == |lines| && forall i :: 0 <= i < |r| ==> r[i] == Text(lines[i], show)
  {
    seq(|lines|, i requires 0 <= i < |lines| => Text(lines[i], show))
  }

  function Prepend(lines: seq<Line>, p: Printed): Printed {
    p.(out := lines + p.out)
  }

  /** Printed only when the level is within the depth asked for. */
  function If(visible: bool, line: Line): (r: seq<Line>) {
    if visible then [line] else []
  }

  /** What one tag does at a level: some output, then on at a level, or the end with a code. */
  datatype Step = Go(line: seq<Line>, level: nat) | Halt(rc: int, line: seq<Line>)

  function StepOf(t: Token, level: nat, depth: int): Step {
    match t
    case BeginNode(name) =>
      var line := If(level <= depth, Open(level, name));
      if level + 1 >= MAX_LEVEL then Halt(1, line + [TooDeep]) else Go(line, level + 1)
    case EndNode =>
      if level == 0 then Halt(1, [])
      else
        var line := If(level - 1 <= depth, Close(level - 1));
        if level == 1 then Halt(0, line) else Go(line, level - 1)
    case Prop(name, data) => Go(If(level <= depth, Property(level, name, data)), level)
    case Nop => Go([NopMark(level)], level)
    case End => Halt(1, [])
  }

  /** The tag loop, from a level on. */
  function Flat(ts: seq<Token>, level: nat, depth: int): Printed
    decreases |ts|
  {
    if ts == [] then Printed(1, [])
    else
      match StepOf(ts[0], level, depth)
      case Go(line, next) => Prepend(line, Flat(ts[1..], next, depth))
      case Halt(rc, line) => Printed(rc, line)
  }

  // ---------------------------------------------------------------- the recursive printer

  function Pretty(n: Node, level: nat, depth: int): seq<Line>
    decreases n, 1
  {
    If(level <= depth, Open(level, n.name))
    + PrettyItems(n.items, level + 1, depth)
    + If(level <= depth, Close(level))
  }

  function PrettyItem(item: Item, level: nat, depth: int): seq<Line>
    decreases item, 2
  {
    match item
    case PropItem(name, data) => If(level <= depth, Property(level, name, data))
    case NopItem => [NopMark(level)]
    case Child(node) => Pretty(node, level, depth)
  }

  function PrettyItems(items: seq<Item>, level: nat, depth: int): seq<Line>
    decreases items, 0
  {
    if items == [] then [] else PrettyItem(items[0], level, depth) + PrettyItems(items[1..], level, depth)
  }

  /** The loop gave up with its message as the last line. */
  predicate Aborted(p: Printed) {
    p.rc == 1 && p.out != [] && p.out[|p.out| - 1] == TooDeep
  }

  /** The loop puts out some lines and goes on, or gives up. */
  predicate Emits(p: Printed, fits: bool, lines: seq<Line>, behind: Printed) {
    if fits then p == Prepend(lines, behind) else Aborted(p)
  }

  lemma EmitsBoth(p: Printed, fits: bool, lines: seq<Line>, q: Printed, fits': bool, lines': seq<Line>, behind: Printed)
    requires Emits(p, fits, lines, q) && Emits(q, fits', lines', behind)
    ensures Emits(p, fits && fits', lines + lines', behind)
  {
    PrependTwice(lines, lines', behind);
  }

  lemma PrependTwice(a: seq<Line>, b: seq<Line>, p: Printed)
    ensures Prepend(a, Prepend(b, p)) == Prepend(a + b, p)
  {
    assert a + (b + p.out) == (a + b) + p.out;
  }

  /** A node inside the one being printed: if it is not too deep the loop emits its text and goes
      on behind it, otherwise it aborts. */
  lemma {:induction false} FlatNode(n: Node, rest: seq<Token>, level: nat, depth: int)
    requires 1 <= level < MAX_LEVEL
    ensures var p := Flat(Flatten(n) + rest, level, depth);
            Emits(p, level + Height(n) < MAX_LEVEL, Pretty(n, level, depth), Flat(rest, level, depth))
    decreases n, 1
  {
    var inner := [EndNode] + rest;
    assert Flatten(n) + rest == [BeginNode(n.name)] + (FlattenItems(n.items) + inner);
    FlatBegin(n.name, FlattenItems(n.items) + inner, level, depth);
    if level + 1 < MAX_LEVEL {
      FlatItems(n.items, inner, level + 1, depth);
      FlatEnd(rest, level + 1, depth);
      NodeText(If(level <= depth, Open(level, n.name)), PrettyItems(n.items, level + 1, depth),
               If(level <= depth, Close(level)), Flat(rest, level, depth));
    }
  }

  lemma FlatBegin(name: string, rest: seq<Token>, level: nat, depth: int)
    requires level < MAX_LEVEL
    ensures var p := Flat([BeginNode(name)] + rest, level, depth);
            if level + 1 < MAX_LEVEL then p == Prepend(If(level <= depth, Open(level, name)),
                                                       Flat(rest, level + 1, depth))
            else Aborted(p)
  {
    assert ([BeginNode(name)] + rest)[1..] == rest;
  }

  lemma FlatEnd(rest: seq<Token>, level: nat, depth: int)
    requires level >= 2
    ensures Flat([EndNode] + rest, level, depth)
         == Prepend(If(level - 1 <= depth, Close(level - 1)), Flat(rest, level - 1, depth))
  {
    assert ([EndNode] + rest)[1..] == rest;
  }

  lemma NodeText(first: seq<Line>, mid: seq<Line>, last: seq<Line>, p: Printed)
    ensures Prepend(first, Prepend(mid, Prepend(last, p))) == Prepend(first + mid + last, p)
  {
    PrependTwice(mid, last, p);
    PrependTwice(first, mid + last, p);
    assert first + (mid + last) == first + mid + last;
  }

  lemma {:induction false} FlatItems(items: seq<Item>, rest: seq<Token>, level: nat, depth: int)
    requires 1 <= level < MAX_LEVEL
    ensures var p := Flat(FlattenItems(items) + rest, level, depth);
            Emits(p, level + HeightItems(items) < MAX_LEVEL, PrettyItems(items, level, depth), Flat(rest, level, depth))
    decreases items, 0
  {
    FlattenCons(items, rest);
    if items != [] {
      var tail := FlattenItems(items[1..]) + rest;
      FlatItems(items[1..], rest, level, depth);
      FlatItem(items[0], tail, level, depth);
      EmitsBoth(Flat(FlattenItem(items[0]) + tail, level, depth), level + HeightItem(items[0]) < MAX_LEVEL,
                PrettyItem(items[0], level, depth), Flat(tail, level, depth),
                level + HeightItems(items[1..]) < MAX_LEVEL, PrettyItems(items[1..], level, depth),
                Flat(rest, level, depth));
    }
  }

  lemma {:induction false} FlatItem(item: Item, rest: seq<Token>, level: nat, depth: int)
    requires 1 <= level < MAX_LEVEL
    ensures var p := Flat(FlattenItem(item) + rest, level, depth);
            Emits(p, level + HeightItem(item) < MAX_LEVEL, PrettyItem(item, level, depth), Flat(rest, level, depth))
    decreases item, 2
  {
    match item
    case Child(node) => FlatNode(node, rest, level, depth);
    case PropItem(name, data) => assert ([Prop(name, data)] + rest)[1..] == rest;
    case NopItem => assert ([Nop] + rest)[1..] == rest;
  }

  /** MAIN RESULT: printing from a node. The loop returns 0 exactly for trees less than MAX_LEVEL
      deep, whatever follows the node, and then it has emitted the text of the recursive printer; for
      others its last line is the message that the nesting is too deep. */
  lemma FlatRefinesPretty(n: Node, rest: seq<Token>, depth: int)
    ensures Flat(Flatten(n) + rest, 0, depth).rc == 0 <==> Height(n) < 32
    ensures Height(n) < 32 ==> Flat(Flatten(n) + rest, 0, depth).out == Pretty(n, 0, depth)
    ensures Height(n) >= 32 ==> Aborted(Flat(Flatten(n) + rest, 0, depth))
  {
    var ts := Flatten(n) + rest;
    var inner := [EndNode] + rest;
    assert ts[0] == BeginNode(n.name) && ts[1..] == FlattenItems(n.items) + inner;
    FlatItems(n.items, inner, 1, depth);
  }

  // ---------------------------------------------------------------- braces

  /** Lines whose braces nest: every opening line stands at the level of the braces open before it, every
      closing line at the level of the brace it closes, and properties inside the innermost one. */
  predicate Nest(lines: seq<Line>, open: nat, after: nat) {
    if lines == [] then open == after
    else
      match lines[0]
      case Open(level, _) => level == open && Nest(lines[1..], open + 1, after)
      case Close(level) => open > 0 && level == open - 1 && Nest(lines[1..], open - 1, after)
      case Property(level, _, _) => level == open && Nest(lines[1..], open, after)
      case NopMark(level) => level >= open && Nest(lines[1..], open, after)
      case TooDeep => false
  }

  lemma {:induction false} NestJoin(x: seq<Line>, y: seq<Line>, open: nat, mid: nat, after: nat)
    requires Nest(x, open, mid) && Nest(y, mid, after)
    ensures Nest(x + y, open, after)
    decreases |x|
  {
    if x == [] {
      assert x + y == y;
    } else {
      assert (x + y)[1..] == x[1..] + y;
      NestJoin(x[1..], y, match x[0] case Open(_, _) => open + 1 case Close(_) => open - 1 case _ => open, mid, after);
    }
  }

  /** The braces that are open at a level when only levels up to the depth are printed. */
  function OpenAt(level: nat, depth: int): nat {
    if level <= depth + 1 then level else if depth + 1 > 0 then depth + 1 else 0
  }

  lemma {:induction false} PrettyNests(n: Node, level: nat, depth: int)
    ensures Nest(Pretty(n, level, depth), OpenAt(level, depth), OpenAt(level, depth))
    decreases n, 1
  {
    var open, inner := OpenAt(level, depth), OpenAt(level + 1, depth);
    var first, last := If(level <= depth, Open(level, n.name)), If(level <= depth, Close(level));
    var mid := PrettyItems(n.items, level + 1, depth);
    ItemsNest(n.items, level + 1, depth);
    NestJoin(first, mid, open, inner, inner);
    NestJoin(first + mid, last, open, inner, open);
  }

  lemma {:induction false} ItemsNest(items: seq<Item>, level: nat, depth: int)
    ensures Nest(PrettyItems(items, level, depth), OpenAt(level, depth), OpenAt(level, depth))
    decreases items, 0
  {
    if items != [] {
      var open := OpenAt(level, depth);
      ItemNests(items[0], level, depth);
      ItemsNest(items[1..], level, depth);
      NestJoin(PrettyItem(items[0], level, depth), PrettyItems(items[1..], level, depth), open, open, open);
    }
  }

  lemma {:induction false} ItemNests(item: Item, level: nat, depth: int)
    ensures Nest(PrettyItem(item, level, depth), OpenAt(level, depth), OpenAt(level, depth))
    decreases item, 2
  {
    if item.Child? {
      PrettyNests(item.node, level, depth);
    }
  }

  /** What the loop emits for a node it accepts has balanced braces, indented by their nesting, whatever the
      depth it is pruned at. */
  lemma BracesBalance(n: Node, rest: seq<Token>, depth: int)
    requires Flat(Flatten(n) + rest, 0, depth).rc == 0
    ensures Nest(Flat(Flatten(n) + rest, 0, depth).out, 0, 0)
  {
    FlatRefinesPretty(n, rest, depth);
    PrettyNests(n, 0, depth);
  }

  // ---------------------------------------------------------------- the loop

  /** The switch on one tag. At level 0 only a BEGIN_NODE can come, which keeps the level, and
      with it the index into tabs, within bounds. */
  method PrintTag(t: Token, level: nat, depth: int, show: Show)
    returns (texts: seq<string>, next: nat, rc: int)
    requires level < MAX_LEVEL && (level == 0 ==> t.BeginNode?)
    ensures texts == Texts(StepOf(t, level, depth).line, show)
    ensures next < MAX_LEVEL
    ensures match StepOf(t, level, depth)
            case Go(_, l) => next == l && next > 0
            case Halt(code, _) => next == 0 && rc == code
  {
    var tabs: string := seq(MAX_LEVEL, i => '\t');
    assert forall l: nat :: l <= MAX_LEVEL ==> tabs[MAX_LEVEL - l..] == Tabs(l);
    texts, next, rc := [], level, 1;
    match t {
      case BeginNode(name) =>
        if level <= depth {
          texts := [tabs[MAX_LEVEL - level..] + (if name == "" then "/" else name) + " {\n"];
        }
        next := level + 1;
        if next >= MAX_LEVEL {
          texts, next := texts + ["Nested too deep, aborting.\n"], 0;
        }
      case EndNode =>
        next := level - 1;
        if next <= depth {
          texts := [tabs[MAX_LEVEL - next..] + "};\n"];
        }
        if next == 0 {
          rc := 0;
        }
      case Prop(name, data) =>
        if level <= depth {
          texts := [if data == [] then tabs[MAX_LEVEL - level..] + name + ";\n"
                    else tabs[MAX_LEVEL - level..] + name + " = " + show(data) + ";\n"];
        }
      case Nop =>
        texts := [tabs[MAX_LEVEL - level..] + "/* NOP */\n"];
      case End =>
        next := 0;
    }
  }

  lemma TextsJoin(x: seq<Line>, y: seq<Line>, show: Show)
    ensures Texts(x + y, show) == Texts(x, show) + Texts(y, show)
  {
  }

  /** The tag loop, from the BEGIN_NODE that fdt_path_offset found. */
  method Print(tokens: seq<Token>, start: nat, depth: int, show: Show) returns (rc: int, out: seq<string>)
    requires start < |tokens| && tokens[start].BeginNode?
    ensures rc == Flat(tokens[start..], 0, depth).rc && out == Texts(Flat(tokens[start..], 0, depth).out, show)
  {
    var level: nat, nodeoffset := 0, start;
    ghost var lines := [];
    rc, out := 1, [];
    while nodeoffset < |tokens|
      invariant start <= nodeoffset <= |tokens| && level < MAX_LEVEL && (level == 0 ==> nodeoffset == start)
      invariant Flat(tokens[start..], 0, depth) == Prepend(lines, Flat(tokens[nodeoffset..], level, depth))
      invariant out == Texts(lines, show) && rc == 1
    {
      ghost var ts := tokens[nodeoffset..];
      assert ts[0] == tokens[nodeoffset] && ts[1..] == tokens[nodeoffset + 1..];
      var texts, next, code;
      ghost var step := StepOf(tokens[nodeoffset], level, depth);
      texts, next, code := PrintTag(tokens[nodeoffset], level, depth, show);
      TextsJoin(lines, step.line, show);
      out := out + texts;
      if next == 0 {
        rc := code;
        return;
      }
      PrependTwice(lines, step.line, Flat(tokens[nodeoffset + 1..], next, depth));
      lines, level := lines + step.line, next;
      nodeoffset := nodeoffset + 1;
    }
  }
}
