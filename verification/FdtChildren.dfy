/** "fdt get name" and "fdt get size": direct children found by walking depths, against the tree. */
module FdtChildren {
  import opened FdtTree
  import opened Wrappers

  /** Where fdt_next_node gets to: a BEGIN_NODE and the stream behind it, or the place where the
      depth fell below zero, or the end of the structure. */
  datatype Next = At(name: string, tail: seq<Token>, depth: int) | Outside(depth: int) | NotFound(depth: int)

  /** fdt_next_node, given the stream behind the current BEGIN_NODE and the current depth. */
  function NextNode(ts: seq<Token>, depth: int): (n: Next)
    ensures n.At? ==> |n.tail| < |ts|
    ensures n.depth <= depth + 1 && (!n.At? ==> n.depth <= depth) && (n.Outside? ==> n.depth < 0)
    decreases |ts|
  {
    if ts == [] then NotFound(depth)
    else
      match ts[0]
      case BeginNode(name) => At(name, ts[1..], depth + 1)
      case EndNode => if depth - 1 < 0 then Outside(depth - 1) else NextNode(ts[1..], depth - 1)
      case End => NotFound(depth)
      case _ => NextNode(ts[1..], depth)
  }

  /** One token of the stream. */
  lemma NextOfCons(t: Token, ts: seq<Token>, depth: int)
    ensures NextNode([t] + ts, depth) ==
      match t
      case BeginNode(name) => At(name, ts, depth + 1)
      case EndNode => if depth - 1 < 0 then Outside(depth - 1) else NextNode(ts, depth - 1)
      case End => NotFound(depth)
      case _ => NextNode(ts, depth)
  {
    assert ([t] + ts)[1..] == ts;
  }

  /** "get name" answers a name or fails; "get size" answers a number. */
  datatype Answer = Name(name: string) | Missing | Count(n: int)

  /** The loop of do_fdt "get": want is the index asked for, None for "get size". */
  function Walk(n: Next, startDepth: int, curIndex: int, want: Option<int>): Answer
    decreases if n.At? then |n.tail| + 1 else 0
  {
    if n.At? && n.depth > startDepth then
      var index := if n.depth == startDepth + 1 then curIndex + 1 else curIndex;
      if want == Some(index) then Name(n.name)
      else Walk(NextNode(n.tail, n.depth), startDepth, index, want)
    else if want.None? then Count(curIndex + 1)
    else Missing
  }

  // ---------------------------------------------------------------- against the tree

  /** Below a direct child nothing is counted: the walk comes out behind the items as it went in. */
  lemma {:induction false} ItemsSkipped(items: seq<Item>, rest: seq<Token>, depth: int, startDepth: int, index: int,
                                        want: Option<int>)
    requires 0 <= startDepth < depth && want != Some(index)
    ensures Walk(NextNode(FlattenItems(items) + rest, depth), startDepth, index, want)
            == Walk(NextNode(rest, depth), startDepth, index, want)
    decreases items, 0
  {
    FlattenCons(items, rest);
    if items != [] {
      var tail := FlattenItems(items[1..]) + rest;
      ItemSkipped(items[0], tail, depth, startDepth, index, want);
      ItemsSkipped(items[1..], rest, depth, startDepth, index, want);
    }
  }

  lemma {:induction false} ItemSkipped(item: Item, rest: seq<Token>, depth: int, startDepth: int, index: int,
                                       want: Option<int>)
    requires 0 <= startDepth < depth && want != Some(index)
    ensures Walk(NextNode(FlattenItem(item) + rest, depth), startDepth, index, want)
            == Walk(NextNode(rest, depth), startDepth, index, want)
    decreases item, 2
  {
    match item
    case Child(node) =>
      NextOfNode(node, rest, depth);
      BodySkipped(node, rest, depth + 1, startDepth, index, want);
    case PropItem(name, data) => NextOfCons(Prop(name, data), rest, depth);
    case NopItem => NextOfCons(Nop, rest, depth);
  }

  /** What is behind the BEGIN_NODE of a node. */
  function Body(n: Node, rest: seq<Token>): seq<Token> {
    FlattenItems(n.items) + ([EndNode] + rest)
  }

  lemma NextOfNode(n: Node, rest: seq<Token>, depth: int)
    ensures NextNode(Flatten(n) + rest, depth) == At(n.name, Body(n, rest), depth + 1)
  {
    assert Flatten(n) + rest == [BeginNode(n.name)] + Body(n, rest);
    NextOfCons(BeginNode(n.name), Body(n, rest), depth);
  }

  /** A node just entered at a depth is left at the depth above. */
  lemma {:induction false} BodySkipped(n: Node, rest: seq<Token>, depth: int, startDepth: int, index: int,
                                       want: Option<int>)
    requires 0 <= startDepth < depth && want != Some(index)
    ensures Walk(NextNode(Body(n, rest), depth), startDepth, index, want)
         == Walk(NextNode(rest, depth - 1), startDepth, index, want)
    decreases n, 1
  {
    ItemsSkipped(n.items, [EndNode] + rest, depth, startDepth, index, want);
    NextOfCons(EndNode, rest, depth);
  }

  /** What is still to be found among the children from a list of items. */
  function Lookup(children: seq<Node>, index: int, want: Option<int>): Answer {
    if want.None? then Count(index + 1 + |children|)
    else if 0 <= want.value - index - 1 < |children| then Name(children[want.value - index - 1].name)
    else Missing
  }

  lemma LookupOfCons(node: Node, children: seq<Node>, index: int, want: Option<int>)
    requires index >= -1
    ensures Lookup([node] + children, index, want) ==
              if want == Some(index + 1) then Name(node.name) else Lookup(children, index + 1, want)
  {
  }

  /** An item of the node itself: a child is counted and compared, anything else is passed over. */
  lemma FirstItem(item: Item, tail: seq<Token>, startDepth: int, index: int, want: Option<int>)
    requires 0 <= startDepth
    ensures Walk(NextNode(FlattenItem(item) + tail, startDepth), startDepth, index, want) ==
              if !item.Child? then Walk(NextNode(tail, startDepth), startDepth, index, want)
              else if want == Some(index + 1) then Name(item.node.name)
              else Walk(NextNode(tail, startDepth), startDepth, index + 1, want)
  {
    match item
    case Child(node) =>
      NextOfNode(node, tail, startDepth);
      if want != Some(index + 1) {
        BodySkipped(node, tail, startDepth + 1, startDepth, index + 1, want);
      }
    case PropItem(name, data) => NextOfCons(Prop(name, data), tail, startDepth);
    case NopItem => NextOfCons(Nop, tail, startDepth);
  }

  /** Behind the last item the walk leaves the node. */
  lemma NoMoreItems(rest: seq<Token>, startDepth: int, index: int, want: Option<int>)
    requires 0 <= startDepth && index >= -1 && (want != Some(index) || index == -1)
    ensures Walk(NextNode([EndNode] + rest, startDepth), startDepth, index, want) == Lookup([], index, want)
  {
    NextOfCons(EndNode, rest, startDepth);
  }

  /** The first item decides, or the walk goes on behind it. */
  lemma FirstLookup(items: seq<Item>, index: int, want: Option<int>)
    requires items != [] && index >= -1
    ensures Lookup(Children(items), index, want) ==
              if !items[0].Child? then Lookup(Children(items[1..]), index, want)
              else if want == Some(index + 1) then Name(items[0].node.name)
              else Lookup(Children(items[1..]), index + 1, want)
  {
    if items[0].Child? {
      LookupOfCons(items[0].node, Children(items[1..]), index, want);
    } else {
      assert Children(items) == Children(items[1..]);
    }
  }

  lemma {:induction false} ItemsLookedUp(items: seq<Item>, rest: seq<Token>, startDepth: int, index: int,
                                         want: Option<int>)
    requires 0 <= startDepth && index >= -1 && (want != Some(index) || index == -1)
    ensures Walk(NextNode(FlattenItems(items) + ([EndNode] + rest), startDepth), startDepth, index, want)
            == Lookup(Children(items), index, want)
    decreases |items|
  {
    FlattenCons(items, [EndNode] + rest);
    if items == [] {
      NoMoreItems(rest, startDepth, index, want);
    } else {
      FirstItem(items[0], FlattenItems(items[1..]) + ([EndNode] + rest), startDepth, index, want);
      FirstLookup(items, index, want);
      if !items[0].Child? {
        ItemsLookedUp(items[1..], rest, startDepth, index, want);
      } else if want != Some(index + 1) {
        ItemsLookedUp(items[1..], rest, startDepth, index + 1, want);
      }
    }
  }

  /** "get" at a node: the stream starts at the node's BEGIN_NODE. */
  function Get(ts: seq<Token>, startDepth: int, want: Option<int>): Answer
    requires ts != []
  {
    Walk(NextNode(ts[1..], startDepth), startDepth, -1, want)
  }

  /** MAIN RESULT: whatever the subtree sizes and whatever follows the node, "get size" is the
      number of direct children. */
  lemma SizeIsChildCount(n: Node, rest: seq<Token>, startDepth: nat)
    ensures Get(Flatten(n) + rest, startDepth, None) == Count(|Children(n.items)|)
  {
    assert (Flatten(n) + rest)[1..] == Body(n, rest);
    ItemsLookedUp(n.items, rest, startDepth, -1, None);
  }

  /** MAIN RESULT: "get name" with index k is the k-th direct child, and fails exactly when there
      is none. An index of -1 (0xFFFFFFFF on the command line) never matches: the first node
      visited is a direct child, so the index is 0 before it is first compared. */
  lemma NameIsKthChild(n: Node, rest: seq<Token>, startDepth: nat, k: int)
    ensures var children := Children(n.items);
            Get(Flatten(n) + rest, startDepth, Some(k)) ==
              if 0 <= k < |children| then Name(children[k].name) else Missing
  {
    assert (Flatten(n) + rest)[1..] == Body(n, rest);
    ItemsLookedUp(n.items, rest, startDepth, -1, Some(k));
  }

  // ---------------------------------------------------------------- the loops

  /** An offset of the structure block and the node found there. */
  ghost predicate Agrees(tokens: seq<Token>, n: Next, next: int, depth: int) {
    && depth == n.depth
    && match n
       case At(name, tail, _) => 0 <= next < |tokens| && tokens[next] == BeginNode(name) && tokens[next + 1..] == tail
       case Outside(_) => next >= 0
       case NotFound(_) => next < 0
  }

  /** fdt_next_node on offsets; a negative offset is an error return. */
  method FdtNextNode(tokens: seq<Token>, offset: nat, depth: int) returns (next: int, depth': int)
    requires offset < |tokens|
    ensures Agrees(tokens, NextNode(tokens[offset + 1..], depth), next, depth')
  {
    next, depth' := offset + 1, depth;
    while next < |tokens|
      invariant offset < next <= |tokens|
      invariant NextNode(tokens[offset + 1..], depth) == NextNode(tokens[next..], depth')
    {
      assert tokens[next..] == [tokens[next]] + tokens[next + 1..];
      NextOfCons(tokens[next], tokens[next + 1..], depth');
      match tokens[next] {
        case BeginNode(_) =>
          depth' := depth' + 1;
          return;
        case EndNode =>
          depth' := depth' - 1;
          if depth' < 0 {
            next := next + 1;
            return;
          }
        case End =>
          next := -1;
          return;
        case _ =>
      }
      next := next + 1;
    }
    next := -1;
  }

  method GetChild(tokens: seq<Token>, nodeoffset: nat, startDepth: nat, want: Option<int>) returns (answer: Answer)
    requires nodeoffset < |tokens|
    ensures answer == Get(tokens[nodeoffset..], startDepth, want)
  {
    assert tokens[nodeoffset..][1..] == tokens[nodeoffset + 1..];
    var curIndex := -1;
    var next, curDepth := FdtNextNode(tokens, nodeoffset, startDepth);
    ghost var n := NextNode(tokens[nodeoffset + 1..], startDepth);
    while curDepth > startDepth && next >= 0
      invariant Agrees(tokens, n, next, curDepth) && (n.Outside? ==> n.depth < 0)
      invariant Get(tokens[nodeoffset..], startDepth, want) == Walk(n, startDepth, curIndex, want)
      decreases if n.At? then |n.tail| + 1 else 0
    {
      if curDepth == startDepth + 1 {
        curIndex := curIndex + 1;
      }
      if want == Some(curIndex) {
        return Name(tokens[next].name);
      }
      n := NextNode(n.tail, curDepth);
      next, curDepth := FdtNextNode(tokens, next, curDepth);
    }
    return if want.None? then Count(curIndex + 1) else Missing;
  }
}
