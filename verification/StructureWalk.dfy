/** The walk of the structure tree with an explicit stack, a visited set and two caps, and its agreement
    with the recursive walk. */
module StructureWalk {
  import opened Bytes
  import opened Cos
  import opened StructureTree

  datatype GraphNode = GraphNode(node: Node, children: seq<nat>)

  /** The nodes with parent `p`, in ascending order. */
  function ChildrenOf(nodes: seq<Node>, p: nat): (r: seq<nat>)
    ensures forall c | c in r :: c < |nodes|
    ensures forall c: nat | c < |nodes| :: c in r <==> nodes[c].parent == Some(p)
    ensures forall i, j | 0 <= i < j < |r| :: r[i] < r[j]
  {
    if nodes == [] then []
    else
      var last := |nodes| - 1;
      var before := ChildrenOf(nodes[..last], p);
      assert forall i | 0 <= i < |before| :: before[i] in before;
      assert forall c: nat | c < last :: nodes[..last][c] == nodes[c];
      before + (if nodes[last].parent == Some(p) then [last] else [])
  }

  predicate ParentsFirst(nodes: seq<Node>) {
    forall i | 0 <= i < |nodes| :: nodes[i].parent.Some? ==> nodes[i].parent.value < i
  }

  lemma ForestParentsFirst(w: Walk)
    requires Forest(w)
    ensures ParentsFirst(w.nodes)
  {
    forall i | 0 <= i < |w.nodes|
      ensures w.nodes[i].parent.Some? ==> w.nodes[i].parent.value < i
    {
      assert ParentOk(w.nodes, w.nodes[i].parent, w.nodes[i].depth, i);
    }
  }

  lemma ChildrenGrow(nodes: seq<Node>, node: Node, p: nat)
    ensures ChildrenOf(nodes + [node], p)
         == ChildrenOf(nodes, p) + (if node.parent == Some(p) then [|nodes|] else [])
  {
    assert (nodes + [node])[..|nodes|] == nodes;
  }

  lemma {:induction false} NoChildrenYet(nodes: seq<Node>, p: nat)
    requires ParentsFirst(nodes) && p >= |nodes|
    ensures ChildrenOf(nodes, p) == []
    decreases |nodes|
  {
    if nodes != [] {
      NoChildrenYet(nodes[..|nodes| - 1], p);
    }
  }

  lemma {:induction false} ReversedSplits<T>(a: seq<T>, b: seq<T>)
    ensures Reversed(a + b) == Reversed(b) + Reversed(a)
  {
    if a == [] {
      assert a + b == b;
    } else {
      assert (a + b)[1..] == a[1..] + b;
      ReversedSplits(a[1..], b);
    }
  }

  lemma ReversedLast<T>(s: seq<T>)
    requires s != []
    ensures Reversed(s) == [s[|s| - 1]] + Reversed(s[..|s| - 1])
  {
    hide Reversed;
    var before, last := s[..|s| - 1], s[|s| - 1];
    assert s == before + [last];
    ReversedSplits(before, [last]);
    ReversedOne(last);
  }

  lemma ReversedOne<T>(x: T)
    ensures Reversed([x]) == [x]
  {
  }

  lemma {:induction false} ReversedTwice<T>(s: seq<T>)
    ensures Reversed(Reversed(s)) == s
  {
    if s != [] {
      ReversedTwice(s[1..]);
      ReversedSplits(Reversed(s[1..]), [s[0]]);
      ReversedOne(s[0]);
    }
  }

  // ---------------------------------------------------------------------------------------------
  // Kids
  // ---------------------------------------------------------------------------------------------

  /** What the kids from the last one backwards have added. */
  datatype Collected = Collected(content: seq<ContentItem>, containsReference: bool, pushed: seq<Item>)

  ghost function CollectedFrom(
      doc: Document, kids: seq<CosObject>, page: Option<ObjectKey>, parent: nat, depth: nat): Collected
  {
    Collected(
      Reversed(ContentOf(doc, kids, page)), HasReference(doc, kids, page),
      Reversed(ChildrenAmong(doc, kids, page, parent, depth + 1)))
  }

  lemma NoKids(doc: Document, page: Option<ObjectKey>, parent: nat, depth: nat)
    ensures CollectedFrom(doc, [], page, parent, depth) == Collected([], false, [])
  {
  }

  /** One more kid in front of the ones collected. */
  lemma KidInFront(doc: Document, kids: seq<CosObject>, page: Option<ObjectKey>, parent: nat, depth: nat)
    requires kids != []
    ensures var kid := KidOf(doc, kids[0], page);
            var before := CollectedFrom(doc, kids[1..], page, parent, depth);
            CollectedFrom(doc, kids, page, parent, depth) ==
            match kid
            case Content(items, isReference) =>
              Collected(before.content + items, before.containsReference || isReference, before.pushed)
            case Child(childPage) =>
              Collected(
                before.content, before.containsReference,
                before.pushed + [Item(kids[0], Some(parent), childPage, depth + 1)])
  {
    var kid := KidOf(doc, kids[0], page);
    var items := if kid.Content? then kid.items else [];
    var child := if kid.Child? then [Item(kids[0], Some(parent), kid.page, depth + 1)] else [];
    ReversedSplits(items, ContentOf(doc, kids[1..], page));
    ReversedSplits(child, ChildrenAmong(doc, kids[1..], page, parent, depth + 1));
    assert |items| <= 1;
    AtMostOneReversed(items);
    AtMostOneReversed(child);
    ReferenceInFront(doc, kids, page);
    assert Reversed(ContentOf(doc, kids[1..], page)) + [] == Reversed(ContentOf(doc, kids[1..], page));
  }

  lemma AtMostOneReversed<T>(s: seq<T>)
    requires |s| <= 1
    ensures Reversed(s) == s
  {
    if s != [] {
      assert s == [s[0]];
      ReversedOne(s[0]);
    }
  }

  lemma ReferenceInFront(doc: Document, kids: seq<CosObject>, page: Option<ObjectKey>)
    requires kids != []
    ensures HasReference(doc, kids, page) <==>
            (KidOf(doc, kids[0], page).Content? && KidOf(doc, kids[0], page).isReference)
            || HasReference(doc, kids[1..], page)
  {
    hide KidOf;
    if HasReference(doc, kids, page) {
      var k :| 0 <= k < |kids| && KidOf(doc, kids[k], page).Content? && KidOf(doc, kids[k], page).isReference;
      assert k > 0 ==> kids[1..][k - 1] == kids[k];
    }
    if HasReference(doc, kids[1..], page) {
      var k :| 0 <= k < |kids[1..]| && KidOf(doc, kids[1..][k], page).Content? && KidOf(doc, kids[1..][k], page).isReference;
      assert kids[k + 1] == kids[1..][k];
    }
  }

  /** Collects the kids of a node from the last to the first: content goes to the node in reverse order,
      children onto the stack so that the first one is on top. */
  method CollectKids(
      doc: Document, d: Dictionary, page: Option<ObjectKey>, parent: nat, depth: nat, stack: seq<Item>)
    returns (r: Result<(seq<ContentItem>, bool, seq<Item>)>)
    requires depth <= 0xFFFF_FFFF
    ensures r.Err? ==> depth == 0xFFFF_FFFF
    ensures r.Ok? ==>
              var all := CollectedFrom(doc, KidsOf(d), page, parent, depth);
              r.value == (all.content, all.containsReference, stack + all.pushed)
  {
    hide KidOf, CollectedFrom, KidsOf;
    NoKids(doc, page, parent, depth);
    var kids := KidsOf(d);
    assert kids[|kids|..] == [];
    var content: seq<ContentItem> := [];
    var containsReference := false;
    var grown := stack;
    assert stack + [] == stack;
    for i := |kids| downto 0
      invariant var done := CollectedFrom(doc, kids[i..], page, parent, depth);
                content == done.content && containsReference == done.containsReference && grown == stack + done.pushed
    {
      assert kids[i..][1..] == kids[i + 1..];
      KidInFront(doc, kids[i..], page, parent, depth);
      match KidOf(doc, kids[i], page)
      case Content(items, isReference) =>
        content := content + items;
        containsReference := containsReference || isReference;
      case Child(childPage) =>
        if depth == 0xFFFF_FFFF {
          return Err(LimitExceeded(MaxObjectDepth));
        }
        ghost var before := CollectedFrom(doc, kids[i + 1..], page, parent, depth).pushed;
        var child := Item(kids[i], Some(parent), childPage, depth + 1);
        assert stack + before + [child] == stack + (before + [child]);
        grown := grown + [child];
    }
    assert kids[0..] == kids;
    return Ok((content, containsReference, grown));
  }

  lemma {:induction false} ReversedAt<T>(s: seq<T>, k: nat)
    requires k < |s|
    ensures Reversed(s)[k] == s[|s| - 1 - k]
  {
    if k < |s| - 1 {
      ReversedAt(s[1..], k);
    }
  }

  predicate IsPalindrome<T(==)>(s: seq<T>) {
    forall k | 0 <= k < |s| :: s[k] == s[|s| - 1 - k]
  }

  lemma ReversedIsSameIff<T>(s: seq<T>)
    ensures Reversed(s) == s <==> IsPalindrome(s)
  {
    hide Reversed;
    forall k | 0 <= k < |s|
      ensures Reversed(s)[k] == s[|s| - 1 - k]
    {
      ReversedAt(s, k);
    }
  }

  /** The content items of a node come out in the reverse of document order, so they are in document order
      exactly when they read the same both ways. */
  lemma ContentInOrderIff(doc: Document, found: Found, role: seq<byte>, item: Item)
    ensures var node := NodeFor(doc, found, role, item);
            var inOrder := ContentOf(doc, KidsOf(found.dictionary), node.page);
            && Reversed(node.content) == inOrder
            && (node.content == inOrder <==> IsPalindrome(inOrder))
  {
    hide ContentOf;
    var inOrder := ContentOf(doc, KidsOf(found.dictionary), PageOf(found.dictionary, item.page));
    ReversedTwice(inOrder);
    ReversedIsSameIff(inOrder);
  }

  lemma StackedBelow(stack: seq<Item>, below: seq<Item>)
    ensures Reversed(stack + Reversed(below)) == below + Reversed(stack)
  {
    hide Reversed;
    ReversedSplits(stack, Reversed(below));
    ReversedTwice(below);
  }

  method PushReversed(stack: seq<Item>, items: seq<Item>) returns (grown: seq<Item>)
    ensures grown == stack + Reversed(items)
  {
    grown := stack;
    for i := |items| downto 0
      invariant grown == stack + Reversed(items[i..])
    {
      assert items[i..][1..] == items[i + 1..];
      assert stack + Reversed(items[i + 1..]) + [items[i]] == stack + (Reversed(items[i + 1..]) + [items[i]]);
      grown := grown + [items[i]];
    }
    assert items[0..] == items;
  }

  // ---------------------------------------------------------------------------------------------
  // Role maps
  // ---------------------------------------------------------------------------------------------

  const MAX_ROLE_MAP_STEPS := 32

  type RoleMap = map<seq<byte>, seq<byte>>

  /** The role after following the map `n` times, staying where it ends. */
  function Mapped(role: seq<byte>, roleMap: RoleMap, n: nat): seq<byte> {
    if n == 0 then role
    else
      var before := Mapped(role, roleMap, n - 1);
      if before in roleMap then roleMap[before] else before
  }

  /** The map leads from the role to an unmapped one in fewer than 32 steps. */
  ghost predicate Resolves(role: seq<byte>, roleMap: RoleMap) {
    Mapped(role, roleMap, MAX_ROLE_MAP_STEPS - 1) !in roleMap
  }

  lemma {:induction false} StaysUnmapped(role: seq<byte>, roleMap: RoleMap, i: nat, j: nat)
    requires i <= j && Mapped(role, roleMap, i) !in roleMap
    ensures Mapped(role, roleMap, j) == Mapped(role, roleMap, i)
  {
    if i < j {
      StaysUnmapped(role, roleMap, i, j - 1);
    }
  }

  lemma {:induction false} CycleStaysMapped(role: seq<byte>, roleMap: RoleMap, i: nat, j: nat, n: nat)
    requires i < j && Mapped(role, roleMap, i) == Mapped(role, roleMap, j)
    requires forall k | 0 <= k < j :: Mapped(role, roleMap, k) in roleMap
    ensures exists k | 0 <= k < j :: Mapped(role, roleMap, n) == Mapped(role, roleMap, k)
    decreases n
  {
    if n >= j {
      CycleStaysMapped(role, roleMap, i, j, n - 1);
      var k :| 0 <= k < j && Mapped(role, roleMap, n - 1) == Mapped(role, roleMap, k);
      assert Mapped(role, roleMap, n) == Mapped(role, roleMap, k + 1);
      assert k + 1 == j ==> Mapped(role, roleMap, n) == Mapped(role, roleMap, i);
    } else {
      assert Mapped(role, roleMap, n) == Mapped(role, roleMap, n);
    }
  }

  /** The first `n` roles of the chain. */
  function ChainSet(role: seq<byte>, roleMap: RoleMap, n: nat): set<seq<byte>> {
    if n == 0 then {} else ChainSet(role, roleMap, n - 1) + {Mapped(role, roleMap, n - 1)}
  }

  lemma {:induction false} OnChain(role: seq<byte>, roleMap: RoleMap, n: nat, r: seq<byte>) returns (k: nat)
    requires r in ChainSet(role, roleMap, n)
    ensures k < n && r == Mapped(role, roleMap, k)
  {
    if r == Mapped(role, roleMap, n - 1) {
      k := n - 1;
    } else {
      k := OnChain(role, roleMap, n - 1, r);
    }
  }

  ghost predicate MappedBelow(role: seq<byte>, roleMap: RoleMap, n: nat) {
    forall k | 0 <= k < n :: Mapped(role, roleMap, k) in roleMap
  }

  lemma RepeatsForever(role: seq<byte>, roleMap: RoleMap, n: nat)
    requires MappedBelow(role, roleMap, n) && Mapped(role, roleMap, n) in ChainSet(role, roleMap, n)
    ensures !Resolves(role, roleMap)
  {
    var k := OnChain(role, roleMap, n, Mapped(role, roleMap, n));
    CycleStaysMapped(role, roleMap, k, n, MAX_ROLE_MAP_STEPS - 1);
  }

  lemma EndsThere(role: seq<byte>, roleMap: RoleMap, n: nat)
    requires n < MAX_ROLE_MAP_STEPS && Mapped(role, roleMap, n) !in roleMap
    ensures Resolves(role, roleMap) && Mapped(role, roleMap, MAX_ROLE_MAP_STEPS) == Mapped(role, roleMap, n)
  {
    StaysUnmapped(role, roleMap, n, MAX_ROLE_MAP_STEPS - 1);
    StaysUnmapped(role, roleMap, n, MAX_ROLE_MAP_STEPS);
  }

  lemma MappedOnce(role: seq<byte>, roleMap: RoleMap, n: nat)
    requires MappedBelow(role, roleMap, n) && Mapped(role, roleMap, n) in roleMap
    ensures Mapped(role, roleMap, n + 1) == roleMap[Mapped(role, roleMap, n)] && MappedBelow(role, roleMap, n + 1)
    ensures ChainSet(role, roleMap, n + 1) == ChainSet(role, roleMap, n) + {Mapped(role, roleMap, n)}
  {
  }

  lemma NeverEnds(role: seq<byte>, roleMap: RoleMap)
    requires MappedBelow(role, roleMap, MAX_ROLE_MAP_STEPS)
    ensures !Resolves(role, roleMap)
  {
  }

  /** Where the loop gives up: at the first role seen before, or after 32 steps. */
  ghost function GivesUpAt(role: seq<byte>, roleMap: RoleMap, from: nat): (n: nat)
    requires from <= MAX_ROLE_MAP_STEPS
    ensures from <= n <= MAX_ROLE_MAP_STEPS
    decreases MAX_ROLE_MAP_STEPS - from
  {
    if from == MAX_ROLE_MAP_STEPS || Mapped(role, roleMap, from) in ChainSet(role, roleMap, from) then from
    else GivesUpAt(role, roleMap, from + 1)
  }

  /** A role is normalised to the end of its chain exactly when the chain ends within 31 steps; a cycle,
      but also a longer chain, is reported as circular, with the role where the loop gave up. */
  method NormalizeRole(role: seq<byte>, roleMap: RoleMap) returns (current: seq<byte>, circular: bool)
    ensures circular <==> !Resolves(role, roleMap)
    ensures !circular ==> current == Mapped(role, roleMap, MAX_ROLE_MAP_STEPS) && current !in roleMap
    ensures circular ==> current == Mapped(role, roleMap, GivesUpAt(role, roleMap, 0))
  {
    current := role;
    var seen: set<seq<byte>> := {};
    hide Resolves, MappedBelow;
    NothingMappedBelow(role, roleMap);
    assert current == Mapped(role, roleMap, 0) && seen == ChainSet(role, roleMap, 0);
    hide Mapped, ChainSet;
    for i := 0 to MAX_ROLE_MAP_STEPS
      invariant current == Mapped(role, roleMap, i) && seen == ChainSet(role, roleMap, i)
      invariant MappedBelow(role, roleMap, i)
      invariant GivesUpAt(role, roleMap, 0) == GivesUpAt(role, roleMap, i)
    {
      if current in seen {
        RepeatsForever(role, roleMap, i);
        return current, true;
      }
      seen := seen + {current};
      if current !in roleMap {
        EndsThere(role, roleMap, i);
        return current, false;
      }
      MappedOnce(role, roleMap, i);
      current := roleMap[current];
    }
    NeverEnds(role, roleMap);
    return current, true;
  }

  lemma NothingMappedBelow(role: seq<byte>, roleMap: RoleMap)
    ensures MappedBelow(role, roleMap, 0)
  {
  }

  // ---------------------------------------------------------------------------------------------
  // The graph
  // ---------------------------------------------------------------------------------------------

  class AccessibilityGraph {
    var nodes: seq<GraphNode>
    var truncated: bool

    constructor ()
      ensures nodes == [] && !truncated
    {
      nodes := [];
      truncated := false;
    }

    /** The graph is the walk's nodes, each with exactly its children. */
    ghost predicate Shows(walked: seq<Node>)
      reads this
    {
      && |nodes| == |walked|
      && forall i | 0 <= i < |nodes| :: nodes[i].node == walked[i] && nodes[i].children == ChildrenOf(walked, i)
    }

    /** Adds a node and tells its parent. */
    method AddNode(node: Node, ghost walked: seq<Node>)
      requires Shows(walked) && ParentsFirst(walked) && (node.parent.Some? ==> node.parent.value < |nodes|)
      modifies `nodes
      ensures Shows(walked + [node])
    {
      hide ChildrenOf;
      var id := |nodes|;
      if node.parent.Some? {
        var p := node.parent.value;
        nodes := nodes[p := nodes[p].(children := nodes[p].children + [id])];
      }
      nodes := nodes + [GraphNode(node, [])];
      NoChildrenYet(walked, |walked|);
      forall i | 0 <= i < |nodes|
        ensures nodes[i].node == (walked + [node])[i] && nodes[i].children == ChildrenOf(walked + [node], i)
      {
        ChildrenGrow(walked, node, i);
      }
    }

    /** One item that is not too deep: its own node, and what is below it onto the stack. */
    method Step(doc: Document, item: Item, maxNodes: nat, stack: seq<Item>, visited: set<ObjectKey>, ghost w: Walk)
      returns (r: Result<(seq<Item>, set<ObjectKey>)>)
      requires Shows(w.nodes) && visited == w.visited && |w.nodes| <= maxNodes && !truncated && Forest(w)
      requires ParentOk(w.nodes, item.parent, item.depth, |w.nodes|) && item.depth <= 0xFFFF_FFFF
      modifies this
      ensures r.Err? ==> item.depth == 0xFFFF_FFFF
      ensures r.Ok? ==>
                var (next, below) := Expand(doc, item, w);
                if truncated then Shows(w.nodes) && |next.nodes| > maxNodes
                else
                  && Shows(next.nodes) && |next.nodes| <= maxNodes
                  && r.value.1 == next.visited && r.value.0 == stack + Reversed(below)
    {
      hide ContentOf, ChildrenAmong, KidsOf, HasReference, Forest, StructureDictionary, PageOf;
      if item.value.Array? {
        var items := WithParent(item.value.items, item);
        var grown := PushReversed(stack, items);
        return Ok((grown, visited));
      }
      var found := StructureDictionary(doc, item.value);
      assert stack + Reversed([]) == stack;
      if found.None? {
        return Ok((stack, visited));
      }
      var key := found.value.key;
      if key.Some? && key.value in visited {
        return Ok((stack, visited));
      }
      var followed := if key.Some? then visited + {key.value} else visited;
      var role := RoleName(found.value.dictionary);
      if role.None? {
        return Ok((stack, followed));
      }
      if |nodes| >= maxNodes {
        truncated := true;
        return Ok((stack, followed));
      }
      var page := PageOf(found.value.dictionary, item.page);
      var kids := CollectKids(doc, found.value.dictionary, page, |nodes|, item.depth, stack);
      if kids.Err? {
        return Err(kids.error);
      }
      ForestParentsFirst(w);
      AddNode(Node(key, role.value, item.parent, item.depth, page, kids.value.0, kids.value.1), w.nodes);
      return Ok((kids.value.2, followed));
    }

    /** Walks everything below the root. The nodes are a prefix of the recursive walk's, and all of them
        unless the walk was cut, which happens exactly when it needs more nodes or more depth than the
        caps allow. */
    method Traverse(doc: Document, root: CosObject, maxNodes: nat, maxDepth: u32) returns (r: Result<()>)
      requires nodes == [] && !truncated
      modifies this
      ensures r.Err? ==> maxDepth == 0xFFFF_FFFF
      ensures r.Ok? ==>
                var full := VisitAll(doc, [Item(root, None, None, 0)], START);
                var walked := full.nodes[..Min(|nodes|, |full.nodes|)];
                && Shows(walked) && |nodes| <= maxNodes
                && (forall i | 0 <= i < |nodes| :: nodes[i].node.depth <= maxDepth)
                && (truncated <==> full.deepest > maxDepth || |full.nodes| > maxNodes)
                && (!truncated ==> walked == full.nodes)
    {
      hide Expand, Forest, VisitAll, Pending, Unvisited, ItemsSize;
      var first := Item(root, None, None, 0);
      ghost var full := VisitAll(doc, [first], START);
      ghost var w := START;
      var stack := [first];
      var visited: set<ObjectKey> := {};
      FirstItem(root);
      while stack != []
        invariant Shows(w.nodes) && visited == w.visited && |w.nodes| <= maxNodes && w.deepest <= maxDepth
        invariant Forest(w)
        invariant !truncated ==> Pending(w, Reversed(stack)) && VisitAll(doc, Reversed(stack), w) == full
        invariant truncated ==> w.nodes <= full.nodes && (full.deepest > maxDepth || |full.nodes| > maxNodes)
        decreases !truncated, Unvisited(doc, visited), ItemsSize(Reversed(stack)), |stack|
      {
        var item := stack[|stack| - 1];
        ReversedLast(stack);
        stack := stack[..|stack| - 1];
        if truncated {
          break;
        }
        ghost var (next, below) := Expand(doc, item, w);
        RoundKeeps(doc, item, stack, below, next, w);
        RoundDecreases(doc, item, stack, below, next, w);
        if item.depth > maxDepth {
          truncated := true;
          continue;
        }
        var step := Step(doc, item, maxNodes, stack, visited, w);
        if step.Err? {
          return Err(step.error);
        }
        if !truncated {
          stack, visited := step.value.0, step.value.1;
          w := next;
        }
      }
      WalkEnds(doc, w, full, truncated);
      return Ok(());
    }
  }

  lemma FirstItem(root: CosObject)
    ensures var first := Item(root, None, None, 0);
            Reversed([first]) == [first] && Pending(START, [first]) && Forest(START)
  {
  }

  /** What one round of the loop does, told of the recursive walk. */
  lemma RoundKeeps(doc: Document, item: Item, stack: seq<Item>, below: seq<Item>, next: Walk, w: Walk)
    requires Forest(w) && Pending(w, [item] + Reversed(stack)) && Expand(doc, item, w) == (next, below)
    ensures ParentOk(w.nodes, item.parent, item.depth, |w.nodes|)
    ensures Forest(next) && Pending(next, Reversed(stack + Reversed(below)))
    ensures VisitAll(doc, [item] + Reversed(stack), w) == VisitAll(doc, Reversed(stack + Reversed(below)), next)
    ensures var full := VisitAll(doc, [item] + Reversed(stack), w);
            w.nodes <= next.nodes <= full.nodes && item.depth <= next.deepest <= full.deepest
    ensures next.deepest <= Max(w.deepest, item.depth)
  {
    hide Unvisited, Forest, VisitAll, ParentOk;
    var rest := Reversed(stack);
    assert ([item] + rest)[0] == item;
    StackedBelow(stack, below);
    WalkWithStack(doc, item, rest, w);
    ExpandKeepsForest(doc, item, w);
    RestPending(w, next, item, rest);
    PendingBoth(next, below, rest);
    hide Expand;
  }

  /** What one round of the loop uses up. */
  lemma RoundDecreases(doc: Document, item: Item, stack: seq<Item>, below: seq<Item>, next: Walk, w: Walk)
    requires Expand(doc, item, w) == (next, below)
    ensures || Unvisited(doc, next.visited) < Unvisited(doc, w.visited)
            || (Unvisited(doc, next.visited) == Unvisited(doc, w.visited)
                && ItemsSize(Reversed(stack + Reversed(below))) < ItemsSize([item] + Reversed(stack)))
  {
    hide Unvisited, Expand, Size;
    var rest := Reversed(stack);
    StackedBelow(stack, below);
    ExpandDecreases(doc, item, w);
    ItemsSizeSplits(below, rest);
    ItemsSizeSplits([item], rest);
    assert ItemsSize([item]) == Size(item.value) by {
      assert [item][1..] == [];
    }
  }

  lemma RestPending(w: Walk, next: Walk, item: Item, rest: seq<Item>)
    requires w.nodes <= next.nodes && Pending(w, [item] + rest)
    ensures Pending(next, rest)
  {
    hide ParentOk;
    forall k | 0 <= k < |rest|
      ensures ParentOk(w.nodes, rest[k].parent, rest[k].depth, |w.nodes|)
    {
      assert ([item] + rest)[k + 1] == rest[k];
    }
    PendingStays(w, next, rest);
  }

  lemma PendingBoth(w: Walk, a: seq<Item>, b: seq<Item>)
    requires Pending(w, a) && Pending(w, b)
    ensures Pending(w, a + b)
  {
    hide ParentOk;
  }

  /** With an empty stack the walk is complete; cut, it is a prefix. */
  lemma WalkEnds(doc: Document, w: Walk, full: Walk, truncated: bool)
    requires Forest(w)
    requires if truncated then w.nodes <= full.nodes else VisitAll(doc, [], w) == full
    ensures w.nodes == full.nodes[..Min(|w.nodes|, |full.nodes|)] && (!truncated ==> w == full)
    ensures forall i | 0 <= i < |w.nodes| :: w.nodes[i].depth <= w.deepest
  {
  }

  function Min(a: nat, b: nat): nat {
    if a < b then a else b
  }
}
