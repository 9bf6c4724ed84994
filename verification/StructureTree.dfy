/** The structure tree of a tagged document as a recursive depth-first walk of its object graph. */
module StructureTree {
  import opened Bytes
  import opened Cos

  type Document = map<ObjectKey, CosObject>

  datatype ContentItem =
    | MarkedContent(mcid: i64, page: Option<ObjectKey>)
    | ObjectReference(key: Option<ObjectKey>, page: Option<ObjectKey>)

  /** A structure element; content items are in the order the walk collects them. */
  datatype Node = Node(
    key: Option<ObjectKey>,
    role: seq<byte>,
    parent: Option<nat>,
    depth: nat,
    page: Option<ObjectKey>,
    content: seq<ContentItem>,
    containsReference: bool)

  /** A value still to be walked. */
  datatype Item = Item(value: CosObject, parent: Option<nat>, page: Option<ObjectKey>, depth: nat)

  // ---------------------------------------------------------------------------------------------
  // Dictionaries
  // ---------------------------------------------------------------------------------------------

  function RoleName(d: Dictionary): Option<seq<byte>> {
    var s := Get(d, "S");
    if s.Some? && s.value.Name? then Some(s.value.bytes) else None
  }

  predicate IsMcr(d: Dictionary) {
    IsName(Get(d, "Type"), "MCR") || Get(d, "MCID").Some?
  }

  predicate IsObjr(d: Dictionary) {
    IsName(Get(d, "Type"), "OBJR") || Get(d, "Obj").Some?
  }

  function ObjectRef(value: Option<CosObject>): Option<ObjectKey> {
    if value.Some? && value.value.Reference? then Some(value.value.key) else None
  }

  function PageOf(d: Dictionary, inherited: Option<ObjectKey>): Option<ObjectKey> {
    var own := ObjectRef(Get(d, "Pg"));
    if own.Some? then own else inherited
  }

  datatype Found = Found(key: Option<ObjectKey>, dictionary: Dictionary)

  /** The dictionary a value is or refers to. */
  function DictionaryOf(doc: Document, value: CosObject): (r: Option<Found>)
    ensures r.Some? && r.value.key.Some? ==> r.value.key.value in doc
  {
    match value
    case Reference(key) =>
      if key in doc && doc[key].AsDictionary().Some? then Some(Found(Some(key), doc[key].AsDictionary().value)) else None
    case Dict(entries) => Some(Found(None, entries))
    case Stream(stream) => Some(Found(None, stream.dictionary))
    case _ => None
  }

  function StructureDictionary(doc: Document, value: CosObject): (r: Option<Found>)
    ensures r.Some? && r.value.key.Some? ==> r.value.key.value in doc
  {
    var found := DictionaryOf(doc, value);
    if found.None? then None
    else
      var d := found.value.dictionary;
      if RoleName(d).Some? || IsMcr(d) || IsObjr(d) then found else None
  }

  // ---------------------------------------------------------------------------------------------
  // Kids
  // ---------------------------------------------------------------------------------------------

  function KidsOf(d: Dictionary): seq<CosObject> {
    var kids := Get(d, "K");
    if kids.None? then [] else if kids.value.Array? then kids.value.items else [kids.value]
  }

  /** What one kid adds to its node: content, a child to walk, or nothing. */
  datatype Kid = Content(items: seq<ContentItem>, isReference: bool) | Child(page: Option<ObjectKey>)

  function KidOf(doc: Document, value: CosObject, page: Option<ObjectKey>): Kid {
    if value.Integer? then Content([MarkedContent(value.value, page)], false)
    else
      var found := StructureDictionary(doc, value);
      if found.None? then Content([], false)
      else
        var d := found.value.dictionary;
        if IsMcr(d) then
          var mcid := IntegerOf(Get(d, "MCID"));
          Content(if mcid.Some? then [MarkedContent(mcid.value, PageOf(d, page))] else [], false)
        else if IsObjr(d) then Content([ObjectReference(ObjectRef(Get(d, "Obj")), PageOf(d, page))], true)
        else Child(PageOf(d, page))
  }

  /** The content items among the kids, in document order. */
  function ContentOf(doc: Document, kids: seq<CosObject>, page: Option<ObjectKey>): seq<ContentItem> {
    if kids == [] then []
    else
      var kid := KidOf(doc, kids[0], page);
      (if kid.Content? then kid.items else []) + ContentOf(doc, kids[1..], page)
  }

  /** The children among the kids, in document order. */
  function ChildrenAmong(doc: Document, kids: seq<CosObject>, page: Option<ObjectKey>, parent: nat, depth: nat)
    : seq<Item>
  {
    if kids == [] then []
    else
      var kid := KidOf(doc, kids[0], page);
      (if kid.Child? then [Item(kids[0], Some(parent), kid.page, depth)] else [])
      + ChildrenAmong(doc, kids[1..], page, parent, depth)
  }

  predicate HasReference(doc: Document, kids: seq<CosObject>, page: Option<ObjectKey>) {
    exists k | 0 <= k < |kids| :: KidOf(doc, kids[k], page).Content? && KidOf(doc, kids[k], page).isReference
  }

  function Reversed<T>(s: seq<T>): (r: seq<T>)
    ensures |r| == |s|
  {
    if s == [] then [] else Reversed(s[1..]) + [s[0]]
  }

  // ---------------------------------------------------------------------------------------------
  // Sizes, for termination
  // ---------------------------------------------------------------------------------------------

  /** The inline part of a value that a walk can reach without following a reference. */
  function Size(o: CosObject): nat
    decreases o
  {
    match o
    case Array(items) => 1 + SizeOf(o, items)
    case Dict(entries) => 1 + KidsSize(o, entries)
    case Stream(stream) => 1 + KidsSize(o, stream.dictionary)
    case _ => 1
  }

  function SizeOf(o: CosObject, items: seq<CosObject>): nat
    requires forall k | 0 <= k < |items| :: items[k] < o
    decreases o, |items|
  {
    if items == [] then 0 else Size(items[0]) + SizeOf(o, items[1..])
  }

  function KidsSize(o: CosObject, d: Dictionary): nat
    requires forall k | k in d :: d[k] < o
    decreases o, 0
  {
    if Ascii("K") in d then Size(d[Ascii("K")]) else 0
  }

  function ItemsSize(items: seq<Item>): nat {
    if items == [] then 0 else Size(items[0].value) + ItemsSize(items[1..])
  }

  function Unvisited(doc: Document, visited: set<ObjectKey>): nat {
    |doc.Keys - visited|
  }

  lemma UnvisitedShrinks(doc: Document, visited: set<ObjectKey>, more: set<ObjectKey>)
    requires visited <= more
    ensures Unvisited(doc, more) <= Unvisited(doc, visited)
  {
    SubsetSize(doc.Keys - more, doc.Keys - visited);
  }

  lemma KeyIsUsedUp(doc: Document, visited: set<ObjectKey>, key: ObjectKey)
    requires key in doc && key !in visited
    ensures Unvisited(doc, visited + {key}) < Unvisited(doc, visited)
  {
    assert doc.Keys - (visited + {key}) == (doc.Keys - visited) - {key};
  }

  lemma {:induction false} SubsetSize(a: set<ObjectKey>, b: set<ObjectKey>)
    requires a <= b
    ensures |a| <= |b|
    decreases a
  {
    if a != {} {
      var x :| x in a;
      SubsetSize(a - {x}, b - {x});
    }
  }

  lemma {:induction false} ChildrenAreSmaller(
      doc: Document, o: CosObject, kids: seq<CosObject>, page: Option<ObjectKey>, parent: nat, depth: nat)
    requires forall k | 0 <= k < |kids| :: kids[k] < o
    ensures ItemsSize(ChildrenAmong(doc, kids, page, parent, depth)) <= SizeOf(o, kids)
    decreases |kids|
  {
    if kids != [] {
      ChildrenAreSmaller(doc, o, kids[1..], page, parent, depth);
      var rest := ChildrenAmong(doc, kids[1..], page, parent, depth);
      if KidOf(doc, kids[0], page).Child? {
        var first := Item(kids[0], Some(parent), KidOf(doc, kids[0], page).page, depth);
        assert ([first] + rest)[1..] == rest;
      } else {
        assert [] + rest == rest;
      }
    }
  }

  // ---------------------------------------------------------------------------------------------
  // The walk
  // ---------------------------------------------------------------------------------------------

  /** The nodes found, the keys followed, and the depth of the deepest item looked at. */
  datatype Walk = Walk(nodes: seq<Node>, visited: set<ObjectKey>, deepest: nat)

  const START := Walk([], {}, 0)

  function Max(a: nat, b: nat): nat {
    if a < b then b else a
  }

  function WithParent(items: seq<CosObject>, item: Item): seq<Item> {
    seq(|items|, i requires 0 <= i < |items| => item.(value := items[i]))
  }

  function NodeFor(doc: Document, found: Found, role: seq<byte>, item: Item): Node {
    var page := PageOf(found.dictionary, item.page);
    var kids := KidsOf(found.dictionary);
    Node(
      found.key, role, item.parent, item.depth, page, Reversed(ContentOf(doc, kids, page)),
      HasReference(doc, kids, page))
  }

  /** What an item is by itself: the walk after it, and the items below it in document order. */
  function Expand(doc: Document, item: Item, w: Walk): (r: (Walk, seq<Item>))
    ensures w.nodes <= r.0.nodes && w.visited <= r.0.visited && w.deepest <= r.0.deepest
    ensures item.depth <= r.0.deepest
  {
    var seen := w.(deepest := Max(w.deepest, item.depth));
    if item.value.Array? then (seen, WithParent(item.value.items, item))
    else
      var found := StructureDictionary(doc, item.value);
      if found.None? || (found.value.key.Some? && found.value.key.value in w.visited) then (seen, [])
      else
        var followed := if found.value.key.Some? then seen.(visited := w.visited + {found.value.key.value}) else seen;
        var role := RoleName(found.value.dictionary);
        if role.None? then (followed, [])
        else
          var node := NodeFor(doc, found.value, role.value, item);
          (followed.(nodes := w.nodes + [node]),
           ChildrenAmong(doc, KidsOf(found.value.dictionary), node.page, |w.nodes|, item.depth + 1))
  }

  lemma {:induction false} ArraySize(o: CosObject, items: seq<CosObject>, item: Item)
    requires forall k | 0 <= k < |items| :: items[k] < o
    ensures ItemsSize(WithParent(items, item)) == SizeOf(o, items)
    decreases |items|
  {
    if items != [] {
      ArraySize(o, items[1..], item);
      assert WithParent(items, item)[1..] == WithParent(items[1..], item);
    }
  }

  lemma KidsAreSmaller(doc: Document, o: CosObject, d: Dictionary, page: Option<ObjectKey>, parent: nat, depth: nat)
    requires forall k | k in d :: d[k] < o
    ensures ItemsSize(ChildrenAmong(doc, KidsOf(d), page, parent, depth)) <= KidsSize(o, d)
  {
    var kids := Get(d, "K");
    if kids.Some? {
      var v := kids.value;
      assert v == d[Ascii("K")];
      if v.Array? {
        ChildrenAreSmaller(doc, v, v.items, page, parent, depth);
      } else {
        ChildrenAreSmaller(doc, o, [v], page, parent, depth);
        assert SizeOf(o, [v][1..]) == 0;
      }
    }
  }

  /** Following an item uses up a key or part of its inline size. */
  lemma ExpandDecreases(doc: Document, item: Item, w: Walk)
    ensures var (next, below) := Expand(doc, item, w);
            || Unvisited(doc, next.visited) < Unvisited(doc, w.visited)
            || (Unvisited(doc, next.visited) == Unvisited(doc, w.visited) && ItemsSize(below) < Size(item.value))
  {
    hide ChildrenAmong, KidsOf, ContentOf, RoleName, IsMcr, IsObjr, HasReference, Unvisited, Reversed, WithParent, PageOf;
    var (next, below) := Expand(doc, item, w);
    if item.value.Array? {
      ArraySize(item.value, item.value.items, item);
    } else {
      var found := StructureDictionary(doc, item.value);
      if found.Some? && found.value.key.Some? && found.value.key.value !in w.visited {
        KeyIsUsedUp(doc, w.visited, found.value.key.value);
      } else if found.Some? && found.value.key.None? {
        InlineKidsAreSmaller(doc, item.value, PageOf(found.value.dictionary, item.page), |w.nodes|, item.depth + 1);
      }
    }
  }

  lemma InlineKidsAreSmaller(doc: Document, o: CosObject, page: Option<ObjectKey>, parent: nat, depth: nat)
    requires o.Dict? || o.Stream?
    ensures ItemsSize(ChildrenAmong(doc, KidsOf(o.AsDictionary().value), page, parent, depth)) < Size(o)
  {
    KidsAreSmaller(doc, o, o.AsDictionary().value, page, parent, depth);
  }

  /** The recursive walk of one item and everything below it. */
  function Visit(doc: Document, item: Item, w: Walk): (r: Walk)
    ensures w.nodes <= r.nodes && w.visited <= r.visited && w.deepest <= r.deepest
    decreases Unvisited(doc, w.visited), Size(item.value), 0
  {
    var (next, below) := Expand(doc, item, w);
    ExpandDecreases(doc, item, w);
    VisitAll(doc, below, next)
  }

  /** The recursive walk of items, one after the other. */
  function VisitAll(doc: Document, items: seq<Item>, w: Walk): (r: Walk)
    ensures w.nodes <= r.nodes && w.visited <= r.visited && w.deepest <= r.deepest
    decreases Unvisited(doc, w.visited), ItemsSize(items), 1
  {
    if items == [] then w
    else
      var after := Visit(doc, items[0], w);
      UnvisitedShrinks(doc, w.visited, after.visited);
      VisitAll(doc, items[1..], after)
  }

  lemma VisitAllOnce(doc: Document, items: seq<Item>, w: Walk)
    requires items != []
    ensures var (next, below) := Expand(doc, items[0], w);
            VisitAll(doc, items, w) == VisitAll(doc, items[1..], VisitAll(doc, below, next))
  {
    hide Expand;
  }

  lemma {:induction false} ItemsSizeSplits(a: seq<Item>, b: seq<Item>)
    ensures ItemsSize(a + b) == ItemsSize(a) + ItemsSize(b)
  {
    if a == [] {
      assert a + b == b;
    } else {
      assert (a + b)[1..] == a[1..] + b;
      ItemsSizeSplits(a[1..], b);
    }
  }

  /** Walking two lists one after the other is walking their concatenation. */
  lemma {:induction false} VisitAllSplits(doc: Document, a: seq<Item>, b: seq<Item>, w: Walk)
    ensures VisitAll(doc, a + b, w) == VisitAll(doc, b, VisitAll(doc, a, w))
    decreases Unvisited(doc, w.visited), ItemsSize(a)
  {
    hide Expand, Unvisited;
    if a == [] {
      assert a + b == b;
    } else {
      var (next, below) := Expand(doc, a[0], w);
      ExpandDecreases(doc, a[0], w);
      var after := VisitAll(doc, below, next);
      UnvisitedShrinks(doc, w.visited, after.visited);
      assert (a + b)[1..] == a[1..] + b;
      VisitAllOnce(doc, a, w);
      VisitAllOnce(doc, a + b, w);
      VisitAllSplits(doc, a[1..], b, after);
    }
  }

  /** The explicit stack: what is below an item comes in front of what is still to be walked. */
  lemma WalkWithStack(doc: Document, item: Item, rest: seq<Item>, w: Walk)
    ensures var (next, below) := Expand(doc, item, w);
            VisitAll(doc, [item] + rest, w) == VisitAll(doc, below + rest, next)
  {
    hide Expand;
    var (next, below) := Expand(doc, item, w);
    VisitAllOnce(doc, [item] + rest, w);
    assert ([item] + rest)[1..] == rest;
    VisitAllSplits(doc, below, rest, next);
  }

  // ---------------------------------------------------------------------------------------------
  // The forest
  // ---------------------------------------------------------------------------------------------

  predicate ParentOk(nodes: seq<Node>, parent: Option<nat>, depth: nat, before: nat) {
    match parent
    case None => depth == 0
    case Some(p) => p < before && p < |nodes| && depth == nodes[p].depth + 1
  }

  /** Parents come first and are one level up, and no key occurs twice. */
  predicate Forest(w: Walk) {
    && (forall i | 0 <= i < |w.nodes| :: ParentOk(w.nodes, w.nodes[i].parent, w.nodes[i].depth, i))
    && (forall i | 0 <= i < |w.nodes| :: w.nodes[i].key.Some? ==> w.nodes[i].key.value in w.visited)
    && (forall i, j | 0 <= i < j < |w.nodes| :: w.nodes[i].key.Some? ==> w.nodes[i].key != w.nodes[j].key)
    && (forall i | 0 <= i < |w.nodes| :: w.nodes[i].depth <= w.deepest)
  }

  predicate Pending(w: Walk, items: seq<Item>) {
    forall k | 0 <= k < |items| :: ParentOk(w.nodes, items[k].parent, items[k].depth, |w.nodes|)
  }

  lemma {:induction false} ChildrenPending(
      doc: Document, kids: seq<CosObject>, page: Option<ObjectKey>, parent: nat, depth: nat, w: Walk)
    requires parent < |w.nodes| && depth == w.nodes[parent].depth + 1
    ensures Pending(w, ChildrenAmong(doc, kids, page, parent, depth))
  {
    if kids != [] {
      ChildrenPending(doc, kids[1..], page, parent, depth, w);
    }
  }

  lemma ParentStays(nodes: seq<Node>, more: seq<Node>, parent: Option<nat>, depth: nat, before: nat)
    requires nodes <= more && ParentOk(nodes, parent, depth, before)
    ensures forall later: nat | before <= later :: ParentOk(more, parent, depth, later)
  {
  }

  lemma PendingStays(w: Walk, next: Walk, items: seq<Item>)
    requires w.nodes <= next.nodes && Pending(w, items)
    ensures Pending(next, items)
  {
    forall k | 0 <= k < |items|
      ensures ParentOk(next.nodes, items[k].parent, items[k].depth, |next.nodes|)
    {
      ParentStays(w.nodes, next.nodes, items[k].parent, items[k].depth, |w.nodes|);
    }
  }

  lemma NodeJoins(w: Walk, next: Walk, node: Node)
    requires Forest(w) && next.nodes == w.nodes + [node] && w.visited <= next.visited && w.deepest <= next.deepest
    requires ParentOk(w.nodes, node.parent, node.depth, |w.nodes|) && node.depth <= next.deepest
    requires node.key.Some? ==> node.key.value !in w.visited && node.key.value in next.visited
    ensures Forest(next)
  {
    forall i | 0 <= i < |next.nodes|
      ensures ParentOk(next.nodes, next.nodes[i].parent, next.nodes[i].depth, i)
    {
      if i < |w.nodes| {
        ParentStays(w.nodes, next.nodes, w.nodes[i].parent, w.nodes[i].depth, i);
      } else {
        ParentStays(w.nodes, next.nodes, node.parent, node.depth, i);
      }
    }
  }

  lemma ExpandKeepsForest(doc: Document, item: Item, w: Walk)
    requires Forest(w) && ParentOk(w.nodes, item.parent, item.depth, |w.nodes|)
    ensures var (next, below) := Expand(doc, item, w);
            Forest(next) && Pending(next, below)
  {
    hide ChildrenAmong, KidsOf, ContentOf, RoleName, IsMcr, IsObjr, HasReference, PageOf, Forest;
    var (next, below) := Expand(doc, item, w);
    if item.value.Array? {
      OnlyDeeper(w, next);
    } else if |next.nodes| > |w.nodes| {
      var node := next.nodes[|w.nodes|];
      NodeJoins(w, next, node);
      var d := StructureDictionary(doc, item.value).value.dictionary;
      ChildrenPending(doc, KidsOf(d), node.page, |w.nodes|, item.depth + 1, next);
    } else {
      OnlyDeeper(w, next);
    }
  }

  lemma OnlyDeeper(w: Walk, next: Walk)
    requires Forest(w) && next.nodes == w.nodes && w.visited <= next.visited && w.deepest <= next.deepest
    ensures Forest(next)
  {
  }

  /** Every walk leaves a forest. */
  lemma {:induction false} WalkKeepsForest(doc: Document, items: seq<Item>, w: Walk)
    requires Forest(w) && Pending(w, items)
    ensures Forest(VisitAll(doc, items, w))
    decreases Unvisited(doc, w.visited), ItemsSize(items)
  {
    hide Expand, Unvisited, Forest, ParentOk;
    if items != [] {
      var (next, below) := Expand(doc, items[0], w);
      ExpandKeepsForest(doc, items[0], w);
      ExpandDecreases(doc, items[0], w);
      WalkKeepsForest(doc, below, next);
      var after := VisitAll(doc, below, next);
      UnvisitedShrinks(doc, w.visited, after.visited);
      PendingStays(w, after, items);
      WalkKeepsForest(doc, items[1..], after);
    }
  }
}
