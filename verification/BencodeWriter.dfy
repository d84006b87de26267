/** The writer: bencWalk keeps the containers it is inside of on a stack of its own; the recursive writer
    it replaces, Serialised, is its specification (bencode.c). */
module BencodeWriter {
  import opened Base
  import opened BencodeValues

  predicate IsContainer(v: Benc) {
    v.List? || v.Dict?
  }

  /** Keys and values in turn, as in the array of a dictionary */
  function Flatten(pairs: seq<Pair>): seq<Benc> {
    if pairs == [] then [] else [Str(pairs[0].key), pairs[0].val] + Flatten(pairs[1..])
  }

  /** The children of a node in the order they are visited */
  function ChildrenOf(v: Benc): seq<Benc> {
    match v
    case List(items) => items
    case Dict(pairs) => Flatten(SortPairs(pairs))
    case _ => []
  }

  function SerialisedAll(items: seq<Benc>): Bytes {
    if items == [] then [] else Serialised(items[0]) + SerialisedAll(items[1..])
  }

  function Opening(v: Benc): Bytes {
    match v
    case List(_) => [CH_L]
    case Dict(_) => [CH_D]
    case _ => Text(Canon(v))
  }

  function Closing(v: Benc): Bytes {
    if IsContainer(v) then [CH_E] else []
  }

  // ---------- sorting first or last makes no difference ----------

  lemma {:induction false} InsertCanonPair(p: Pair, s: seq<Pair>)
    ensures InsertPair(Pair(p.key, Canon(p.val)), CanonPairs(s)) == CanonPairs(InsertPair(p, s))
  {
    if s == [] || StrCmp(p.key, s[0].key) <= 0 {
      assert ([p] + s)[1..] == s;
    } else {
      InsertCanonPair(p, s[1..]);
      assert InsertPair(p, s)[1..] == InsertPair(p, s[1..]);
      assert CanonPairs(s)[1..] == CanonPairs(s[1..]);
    }
  }

  lemma {:induction false} SortCanonPairs(s: seq<Pair>)
    ensures SortPairs(CanonPairs(s)) == CanonPairs(SortPairs(s))
  {
    if s != [] {
      assert CanonPairs(s)[1..] == CanonPairs(s[1..]);
      SortCanonPairs(s[1..]);
      InsertCanonPair(s[0], SortPairs(s[1..]));
    }
  }

  lemma {:induction false} TextOfCanonAll(items: seq<Benc>)
    ensures TextOfAll(CanonAll(items)) == SerialisedAll(items)
  {
    if items != [] {
      TextOfCanonAll(items[1..]);
      assert CanonAll(items)[1..] == CanonAll(items[1..]);
    }
  }

  lemma {:induction false} TextOfCanonPairs(pairs: seq<Pair>)
    ensures TextOfPairs(CanonPairs(pairs)) == SerialisedAll(Flatten(pairs))
  {
    if pairs != [] {
      TextOfCanonPairs(pairs[1..]);
      assert CanonPairs(pairs)[1..] == CanonPairs(pairs[1..]);
      var rest := Flatten(pairs[1..]);
      var all := Flatten(pairs);
      assert all[1..] == [pairs[0].val] + rest;
      assert all[1..][1..] == rest;
      assert SerialisedAll(all) == StrText(pairs[0].key) + (Serialised(pairs[0].val) + SerialisedAll(rest));
    }
  }

  /** What a value is written as: its opening, its children in visiting order, its closing */
  lemma SerialisedInParts(v: Benc)
    ensures Serialised(v) == Opening(v) + SerialisedAll(ChildrenOf(v)) + Closing(v)
  {
    match v
    case List(items) => TextOfCanonAll(items);
    case Dict(pairs) =>
      SortCanonPairs(pairs);
      TextOfCanonPairs(SortPairs(pairs));
    case _ =>
  }

  // ---------- the stack ----------

  datatype SaveNode = SaveNode(val: Benc, valIsVisited: bool, children: seq<Benc>, childIndex: nat) {
    predicate Ok() {
      childIndex <= |children| && (!valIsVisited ==> childIndex == 0) && children == ChildrenOf(val)
    }

    function Left(): seq<Benc> {
      if childIndex <= |children| then children[childIndex..] else []
    }

    /** What is still to be written for this node */
    function Rest(): Bytes {
      if !valIsVisited then Serialised(val) else SerialisedAll(Left()) + Closing(val)
    }

    /** The steps it still takes: visiting it, its children, leaving it */
    function Work(): nat {
      (if valIsVisited then 1 else 2) + SizeOfAll(Left())
    }
  }

  ghost predicate StackOk(stack: seq<SaveNode>) {
    forall k :: 0 <= k < |stack| ==> stack[k].Ok()
  }

  /** What is still to be written for all nodes, the innermost first */
  function Pending(stack: seq<SaveNode>): Bytes {
    if stack == [] then [] else stack[|stack| - 1].Rest() + Pending(stack[..|stack| - 1])
  }

  // ---------- termination ----------

  function Size(v: Benc): nat
    decreases v, 0
  {
    match v
    case List(items) => 3 + SizeOfAll(items)
    case Dict(pairs) => 3 + SizeOfPairs(pairs)
    case _ => 3
  }

  function SizeOfAll(items: seq<Benc>): nat
    decreases items, 1
  {
    if items == [] then 0 else Size(items[0]) + SizeOfAll(items[1..])
  }

  function SizeOfPairs(pairs: seq<Pair>): nat
    decreases pairs, 1
  {
    if pairs == [] then 0 else 3 + Size(pairs[0].val) + SizeOfPairs(pairs[1..])
  }

  lemma {:induction false} InsertPairSize(p: Pair, s: seq<Pair>)
    ensures SizeOfPairs(InsertPair(p, s)) == 3 + Size(p.val) + SizeOfPairs(s)
  {
    if s == [] || StrCmp(p.key, s[0].key) <= 0 {
      assert ([p] + s)[1..] == s;
    } else {
      InsertPairSize(p, s[1..]);
      assert InsertPair(p, s)[1..] == InsertPair(p, s[1..]);
    }
  }

  lemma {:induction false} SortPairsSize(s: seq<Pair>)
    ensures SizeOfPairs(SortPairs(s)) == SizeOfPairs(s)
  {
    if s != [] {
      SortPairsSize(s[1..]);
      InsertPairSize(s[0], SortPairs(s[1..]));
    }
  }

  lemma {:induction false} FlattenSize(pairs: seq<Pair>)
    ensures SizeOfAll(Flatten(pairs)) == SizeOfPairs(pairs)
  {
    if pairs != [] {
      FlattenSize(pairs[1..]);
      var all := Flatten(pairs);
      assert all[1..] == [pairs[0].val] + Flatten(pairs[1..]);
      assert all[1..][1..] == Flatten(pairs[1..]);
    }
  }

  lemma ChildrenSize(v: Benc)
    ensures Size(v) == 3 + SizeOfAll(ChildrenOf(v))
  {
    if v.Dict? {
      SortPairsSize(v.pairs);
      FlattenSize(SortPairs(v.pairs));
    }
  }

  function Work(stack: seq<SaveNode>): nat {
    if stack == [] then 0 else stack[|stack| - 1].Work() + Work(stack[..|stack| - 1])
  }

  // ---------- the machine ----------

  /** nodeInitDict: the pairs in key order, qsort with compareKeyIndex */
  method NodeInitDict(pairs: seq<Pair>) returns (children: seq<Benc>)
    ensures children == Flatten(SortPairs(pairs))
  {
    var indices: seq<Pair> := SortPairs(pairs);
    children := [];
    var i := |indices|;
    while i > 0
      invariant 0 <= i <= |indices| && children == Flatten(indices[i..])
    {
      i := i - 1;
      children := [Str(indices[i].key), indices[i].val] + children;
      assert indices[i..][1..] == indices[i + 1..];
    }
    assert indices[0..] == indices;
  }

  method NodeInit(val: Benc) returns (node: SaveNode)
    ensures node == SaveNode(val, false, ChildrenOf(val), 0)
  {
    var children: seq<Benc> := [];
    match val {
      case List(items) => children := items;
      case Dict(pairs) => children := NodeInitDict(pairs);
      case _ =>
    }
    node := SaveNode(val, false, children, 0);
  }

  lemma StackTop(stack: seq<SaveNode>, rest: seq<SaveNode>, top: SaveNode)
    requires stack == rest + [top]
    ensures Pending(stack) == top.Rest() + Pending(rest) && Work(stack) == top.Work() + Work(rest)
  {
    assert stack[..|stack| - 1] == rest;
  }

  /** Visiting a container or a leaf at the top of the stack */
  lemma VisitStep(node: SaveNode)
    requires node.Ok() && !node.valIsVisited
    ensures node.(valIsVisited := true).Ok()
    ensures node.Rest() == Opening(node.val) + node.(valIsVisited := true).Rest()
    ensures node.(valIsVisited := true).Work() < node.Work()
  {
    SerialisedInParts(node.val);
    assert node.children[0..] == node.children;
  }

  lemma ChildStep(node: SaveNode)
    requires node.Ok() && node.valIsVisited && node.childIndex < |node.children|
    ensures var next := node.(childIndex := node.childIndex + 1); var child := node.children[node.childIndex];
      next.Ok() && node.Rest() == Serialised(child) + next.Rest() && node.Work() == Size(child) + next.Work()
  {
    assert node.children[node.childIndex..][1..] == node.children[node.childIndex + 1..];
  }

  lemma NewNode(child: Benc)
    ensures var node := SaveNode(child, false, ChildrenOf(child), 0);
      node.Ok() && node.Rest() == Serialised(child) && node.Work() < Size(child)
  {
    ChildrenSize(child);
    assert ChildrenOf(child)[0..] == ChildrenOf(child);
  }

  /** The save functions for a value met for the first time */
  method SaveFunc(val: Benc) returns (text: Bytes)
    ensures text == Opening(val)
  {
    match val {
      case Int(i) => text := [CH_I] + IntText(i) + [CH_E];
      case Bool(b) => text := if b then [CH_I, 49, CH_E] else [CH_I, 48, CH_E];
      case Str(s) => text := Digits(|s|) + [CH_COLON] + s;
      case List(_) => text := [CH_L];
      case Dict(_) => text := [CH_D];
    }
  }

  /** One round moves some text from pending to written. */
  ghost predicate Stepped(before: seq<SaveNode>, text: Bytes, after: seq<SaveNode>) {
    StackOk(before) && StackOk(after) && Pending(before) == text + Pending(after) && Work(after) < Work(before)
  }

  lemma Assoc(a: Bytes, b: Bytes, c: Bytes)
    ensures (a + b) + c == a + (b + c)
  {
  }

  lemma ReplaceTop(rest: seq<SaveNode>, node: SaveNode, text: Bytes, after: SaveNode)
    requires StackOk(rest) && node.Ok() && after.Ok()
    requires node.Rest() == text + after.Rest() && after.Work() < node.Work()
    ensures Stepped(rest + [node], text, rest + [after])
    ensures Work(rest + [node]) - node.Work() == Work(rest + [after]) - after.Work()
  {
    StackTop(rest + [node], rest, node);
    StackTop(rest + [after], rest, after);
    Assoc(text, after.Rest(), Pending(rest));
  }

  lemma PushTop(rest: seq<SaveNode>, node: SaveNode, after: SaveNode, child: SaveNode)
    requires StackOk(rest) && node.Ok() && after.Ok() && child.Ok()
    requires node.Rest() == child.Rest() + after.Rest() && child.Work() + after.Work() < node.Work()
    ensures Stepped(rest + [node], [], rest + [after] + [child])
  {
    ReplaceTop(rest, node, child.Rest(), after);
    StackTop(rest + [after] + [child], rest + [after], child);
  }

  lemma PopTop(rest: seq<SaveNode>, node: SaveNode)
    requires StackOk(rest) && node.Ok() && node.valIsVisited && node.childIndex == |node.children|
    ensures Stepped(rest + [node], Closing(node.val), rest)
  {
    StackTop(rest + [node], rest, node);
    assert SerialisedAll(node.children[node.childIndex..]) + Closing(node.val) == Closing(node.val);
  }

  /** The next child of the node on top: written at once, or pushed as a node of its own */
  method VisitChild(rest: seq<SaveNode>, node: SaveNode) returns (next: seq<SaveNode>, text: Bytes)
    requires StackOk(rest) && node.Ok() && node.valIsVisited && node.childIndex < |node.children|
    ensures Stepped(rest + [node], text, next)
  {
    ChildStep(node);
    var val := node.children[node.childIndex];
    var after := node.(childIndex := node.childIndex + 1);
    NewNode(val);
    if IsContainer(val) {
      text := [];
      var child := NodeInit(val);
      next := rest + [after] + [child];
      PushTop(rest, node, after, child);
    } else {
      text := SaveFunc(val);
      next := rest + [after];
      ReplaceTop(rest, node, text, after);
    }
  }

  /** One round of the loop */
  method Visit(rest: seq<SaveNode>, node: SaveNode) returns (next: seq<SaveNode>, text: Bytes)
    requires StackOk(rest) && node.Ok()
    ensures Stepped(rest + [node], text, next)
  {
    if !node.valIsVisited {
      text := SaveFunc(node.val);
      next := rest + [node.(valIsVisited := true)];
      VisitStep(node);
      ReplaceTop(rest, node, text, node.(valIsVisited := true));
    } else if node.childIndex < |node.children| {
      next, text := VisitChild(rest, node);
    } else {
      text := if IsContainer(node.val) then [CH_E] else [];
      next := rest;
      PopTop(rest, node);
    }
  }

  /** What is written and what is pending make up the whole text. */
  ghost predicate Writing(out: Bytes, stack: seq<SaveNode>, whole: Bytes) {
    StackOk(stack) && out + Pending(stack) == whole
  }

  lemma StartWriting(node: SaveNode)
    requires node.Ok()
    ensures Writing([], [node], node.Rest())
  {
    StackTop([node], [], node);
  }

  lemma KeepWriting(out: Bytes, stack: seq<SaveNode>, whole: Bytes, text: Bytes, next: seq<SaveNode>)
    requires Writing(out, stack, whole) && Stepped(stack, text, next)
    ensures Writing(out + text, next, whole)
  {
    Assoc(out, text, Pending(next));
  }

  /** bencWalk with saveFuncs: what it writes is what the recursive writer writes, and it always comes to an end. */
  method BencWalk(top: Benc) returns (out: Bytes)
    ensures out == Serialised(top)
  {
    out := [];
    var node := NodeInit(top);
    var stack := [node];
    NewNode(top);
    StartWriting(node);
    while stack != []
      invariant Writing(out, stack, Serialised(top))
      decreases Work(stack)
    {
      node := stack[|stack| - 1];
      assert stack[..|stack| - 1] + [node] == stack;
      var next, text := Visit(stack[..|stack| - 1], node);
      KeepWriting(out, stack, Serialised(top), text, next);
      stack, out := next, out + text;
    }
  }
}
