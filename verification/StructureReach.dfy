/** What the walk of a structure tree finds, told from the dictionaries of the document alone: section 14.7.2
    of ISO 32000-1. */
module StructureReach {
  import opened Bytes
  import opened Cos
  import opened StandardTables
  import opened StructureTree
  import StructureWalk

  // ---------------------------------------------------------------------------------------------
  // Structure elements, marked-content references and object references
  // ---------------------------------------------------------------------------------------------

  /** The dictionary a value is or refers to. */
  function Denoted(doc: Document, value: CosObject): Option<Dictionary> {
    match value
    case Dict(entries) => Some(entries)
    case Stream(stream) => Some(stream.dictionary)
    case Reference(key) =>
      if key !in doc then None
      else if doc[key].Dict? then Some(doc[key].entries)
      else if doc[key].Stream? then Some(doc[key].stream.dictionary)
      else None
    case _ => None
  }

  predicate IsElement(doc: Document, value: CosObject) {
    var d := Denoted(doc, value);
    d.Some? && Entry(d.value, "S").Some? && Entry(d.value, "S").value.Name?
  }

  predicate MarksContent(d: Dictionary) {
    Entry(d, "Type") == Some(Name(Ascii("MCR"))) || Ascii("MCID") in d
  }

  predicate MarksObject(d: Dictionary) {
    !MarksContent(d) && (Entry(d, "Type") == Some(Name(Ascii("OBJR"))) || Ascii("Obj") in d)
  }

  function Target(value: Option<CosObject>): Option<ObjectKey> {
    match value
    case Some(Reference(key)) => Some(key)
    case _ => None
  }

  /** A dictionary's own page, otherwise the inherited one. */
  function PageFor(d: Dictionary, inherited: Option<ObjectKey>): Option<ObjectKey> {
    match Entry(d, "Pg")
    case Some(Reference(key)) => Some(key)
    case _ => inherited
  }

  /** The kids of an element: the items of an array, or a single value. */
  function Listed(d: Dictionary): seq<CosObject> {
    match Entry(d, "K")
    case None => []
    case Some(Array(items)) => items
    case Some(kid) => [kid]
  }

  /** The content a kid stands for: a number, a marked-content reference with a number, or an object
      reference. */
  function Marked(doc: Document, kid: CosObject, page: Option<ObjectKey>): seq<ContentItem> {
    if kid.Integer? then [MarkedContent(kid.value, page)]
    else
      match Denoted(doc, kid)
      case None => []
      case Some(d) =>
        if MarksObject(d) then [ObjectReference(Target(Entry(d, "Obj")), PageFor(d, page))]
        else if !MarksContent(d) then []
        else
          match Entry(d, "MCID")
          case Some(Integer(mcid)) => [MarkedContent(mcid, PageFor(d, page))]
          case _ => []
  }

  function MarkedIn(doc: Document, kids: seq<CosObject>, page: Option<ObjectKey>): seq<ContentItem> {
    if kids == [] then [] else Marked(doc, kids[0], page) + MarkedIn(doc, kids[1..], page)
  }

  /** A kid that is a structure element itself. */
  predicate ChildOf(doc: Document, parent: CosObject, kid: CosObject) {
    && Denoted(doc, parent).Some? && kid in Listed(Denoted(doc, parent).value)
    && IsElement(doc, kid)
    && !MarksContent(Denoted(doc, kid).value) && !MarksObject(Denoted(doc, kid).value)
  }

  /** The root may be an array, nested to any depth. */
  ghost predicate IsLeaf(root: CosObject, value: CosObject)
    decreases root
  {
    if root.Array? then exists k | 0 <= k < |root.items| :: IsLeaf(root.items[k], value) else value == root
  }

  ghost predicate IsPath(doc: Document, root: CosObject, path: seq<CosObject>) {
    && path != [] && IsLeaf(root, path[0]) && IsElement(doc, path[0])
    && forall i | 0 < i < |path| :: ChildOf(doc, path[i - 1], path[i])
  }

  /** An element can be reached from the root through kids. */
  ghost predicate Reaches(doc: Document, root: CosObject, value: CosObject) {
    exists path :: IsPath(doc, root, path) && path[|path| - 1] == value
  }

  // ---------------------------------------------------------------------------------------------
  // What a node says of the value it was found at
  // ---------------------------------------------------------------------------------------------

  function Inherited(nodes: seq<Node>, parent: Option<nat>): Option<ObjectKey> {
    if parent.Some? && parent.value < |nodes| then nodes[parent.value].page else None
  }

  /** Node `i` shows the element `origins[i]`: its key, its role, its own page or its parent's, the content
      among its kids with the last kid first, and whether an object reference is among them. The element is
      at the root or a kid of its parent's. */
  ghost predicate Describes(doc: Document, root: CosObject, nodes: seq<Node>, origins: seq<CosObject>, i: nat)
    requires i < |nodes| == |origins|
  {
    var node, value := nodes[i], origins[i];
    && IsElement(doc, value)
    && var d := Denoted(doc, value).value;
       && node.key == Target(Some(value))
       && Entry(d, "S") == Some(Name(node.role))
       && node.page == PageFor(d, Inherited(nodes, node.parent))
       && Reversed(node.content) == MarkedIn(doc, Listed(d), node.page)
       && (node.containsReference
           <==> exists kid :: kid in Listed(d) && Denoted(doc, kid).Some? && MarksObject(Denoted(doc, kid).value))
       && match node.parent
          case None => IsLeaf(root, value)
          case Some(p) => p < i && ChildOf(doc, origins[p], value)
  }

  ghost predicate Explains(doc: Document, root: CosObject, nodes: seq<Node>, origins: seq<CosObject>) {
    |origins| == |nodes| && forall i | 0 <= i < |nodes| :: Describes(doc, root, nodes, origins, i)
  }

  // ---------------------------------------------------------------------------------------------
  // The tests of the walk
  // ---------------------------------------------------------------------------------------------

  lemma DictionaryIsDenoted(doc: Document, value: CosObject)
    ensures var found := DictionaryOf(doc, value);
            && (found.Some? <==> Denoted(doc, value).Some?)
            && (found.Some? ==> found.value.dictionary == Denoted(doc, value).value
                                && found.value.key == Target(Some(value)))
  {
  }

  lemma DictionaryTests(d: Dictionary, inherited: Option<ObjectKey>)
    ensures RoleName(d).Some? <==> Entry(d, "S").Some? && Entry(d, "S").value.Name?
    ensures RoleName(d).Some? ==> Entry(d, "S") == Some(Name(RoleName(d).value))
    ensures IsMcr(d) <==> MarksContent(d)
    ensures !IsMcr(d) ==> (IsObjr(d) <==> MarksObject(d))
    ensures PageOf(d, inherited) == PageFor(d, inherited)
    ensures KidsOf(d) == Listed(d)
  {
  }

  /** A kid is content, a child or nothing by these tests. */
  lemma KidIsMarked(doc: Document, kid: CosObject, page: Option<ObjectKey>)
    ensures var k := KidOf(doc, kid, page);
            var d := Denoted(doc, kid);
            && (k.Child? <==> IsElement(doc, kid) && !MarksContent(d.value) && !MarksObject(d.value))
            && (k.Child? ==> k.page == PageFor(d.value, page) && Marked(doc, kid, page) == [])
            && (k.Content? ==> k.items == Marked(doc, kid, page)
                               && (k.isReference <==> d.Some? && MarksObject(d.value)))
  {
    DictionaryIsDenoted(doc, kid);
    var d := Denoted(doc, kid);
    if d.Some? {
      DictionaryTests(d.value, page);
    }
    hide RoleName, IsMcr, IsObjr, PageOf, MarksContent, MarksObject, PageFor, DictionaryOf, Denoted;
  }

  lemma {:induction false} ContentIsMarked(doc: Document, kids: seq<CosObject>, page: Option<ObjectKey>)
    ensures ContentOf(doc, kids, page) == MarkedIn(doc, kids, page)
  {
    if kids != [] {
      KidIsMarked(doc, kids[0], page);
      ContentIsMarked(doc, kids[1..], page);
    }
  }

  lemma ReferenceIsMarked(doc: Document, kids: seq<CosObject>, page: Option<ObjectKey>)
    ensures HasReference(doc, kids, page)
       <==> exists kid :: kid in kids && Denoted(doc, kid).Some? && MarksObject(Denoted(doc, kid).value)
  {
    hide KidOf, Denoted, MarksObject, IsElement, Marked;
    forall k | 0 <= k < |kids|
      ensures KidOf(doc, kids[k], page).Content? && KidOf(doc, kids[k], page).isReference
         <==> Denoted(doc, kids[k]).Some? && MarksObject(Denoted(doc, kids[k]).value)
    {
      KidIsMarked(doc, kids[k], page);
    }
  }

  lemma {:induction false} ChildrenAreKids(
      doc: Document, kids: seq<CosObject>, page: Option<ObjectKey>, parent: nat, depth: nat, item: Item)
    requires item in ChildrenAmong(doc, kids, page, parent, depth)
    ensures item.value in kids && KidOf(doc, item.value, page) == Child(item.page) && item.parent == Some(parent)
    decreases |kids|
  {
    hide KidOf;
    var rest := ChildrenAmong(doc, kids[1..], page, parent, depth);
    if item in rest {
      ChildrenAreKids(doc, kids[1..], page, parent, depth, item);
    }
  }

  lemma {:induction false} KidsAreChildren(
      doc: Document, kids: seq<CosObject>, page: Option<ObjectKey>, parent: nat, depth: nat, kid: CosObject)
    requires kid in kids && KidOf(doc, kid, page).Child?
    ensures exists item :: item in ChildrenAmong(doc, kids, page, parent, depth) && item.value == kid
    decreases |kids|
  {
    hide KidOf;
    var all := ChildrenAmong(doc, kids, page, parent, depth);
    if kid == kids[0] {
      assert all[0].value == kid;
    } else {
      KidsAreChildren(doc, kids[1..], page, parent, depth, kid);
      var item :| item in ChildrenAmong(doc, kids[1..], page, parent, depth) && item.value == kid;
      assert item in all;
    }
  }

  // ---------------------------------------------------------------------------------------------
  // One step
  // ---------------------------------------------------------------------------------------------

  /** An item still to be walked stands at the root or is a kid of its parent's element. */
  ghost predicate Due(doc: Document, root: CosObject, nodes: seq<Node>, origins: seq<CosObject>, item: Item)
    requires |origins| == |nodes|
  {
    match item.parent
    case None => item.page == None && forall v | IsLeaf(item.value, v) :: IsLeaf(root, v)
    case Some(p) =>
      && p < |nodes| && ChildOf(doc, origins[p], item.value)
      && item.page == PageFor(Denoted(doc, item.value).value, nodes[p].page)
  }

  ghost predicate AllDue(doc: Document, root: CosObject, nodes: seq<Node>, origins: seq<CosObject>, items: seq<Item>)
    requires |origins| == |nodes|
  {
    forall item | item in items :: Due(doc, root, nodes, origins, item)
  }

  /** What was found explains the nodes, and every element followed was found. */
  ghost predicate Sound(doc: Document, root: CosObject, w: Walk, origins: seq<CosObject>) {
    && Explains(doc, root, w.nodes, origins)
    && forall key | key in w.visited && IsElement(doc, Reference(key)) :: Reference(key) in origins
  }

  /** An element at an item is found already or still to be walked. */
  ghost predicate Met(value: CosObject, origins: seq<CosObject>, items: seq<Item>) {
    value in origins || exists item :: item in items && IsLeaf(item.value, value)
  }

  /** Everything below the elements from number `from` on is found already or still to be walked. */
  ghost predicate Closed(doc: Document, origins: seq<CosObject>, from: nat, items: seq<Item>) {
    forall i, kid | from <= i < |origins| && ChildOf(doc, origins[i], kid) :: Met(kid, origins, items)
  }

  lemma OwnPage(doc: Document, root: CosObject, nodes: seq<Node>, origins: seq<CosObject>, item: Item)
    requires |origins| == |nodes| && Due(doc, root, nodes, origins, item) && Denoted(doc, item.value).Some?
    ensures var d := Denoted(doc, item.value).value; PageFor(d, item.page) == PageFor(d, Inherited(nodes, item.parent))
  {
  }

  /** The node of an element due says what there is to say of it. */
  lemma NodeDescribes(doc: Document, root: CosObject, nodes: seq<Node>, origins: seq<CosObject>, item: Item)
    requires |origins| == |nodes| && Due(doc, root, nodes, origins, item)
    requires !item.value.Array? && IsElement(doc, item.value)
    ensures var found := StructureDictionary(doc, item.value);
            && found.Some? && RoleName(found.value.dictionary).Some?
            && Describes(
                 doc, root, nodes + [NodeFor(doc, found.value, RoleName(found.value.dictionary).value, item)],
                 origins + [item.value], |nodes|)
  {
    DictionaryIsDenoted(doc, item.value);
    var d := Denoted(doc, item.value).value;
    DictionaryTests(d, item.page);
    var found := StructureDictionary(doc, item.value).value;
    var page := PageOf(d, item.page);
    OwnPage(doc, root, nodes, origins, item);
    ContentIsMarked(doc, Listed(d), page);
    ReferenceIsMarked(doc, Listed(d), page);
    StructureWalk.ReversedTwice(ContentOf(doc, Listed(d), page));
    assert item.parent.None? ==> IsLeaf(item.value, item.value);
    hide Denoted, RoleName, MarksContent, MarksObject, MarkedIn, KidsOf, Listed, HasReference, ContentOf, IsMcr, IsObjr;
    hide StructureDictionary, Entry, ChildOf, Reversed, PageFor, PageOf;
  }

  /** One more node. */
  lemma NodeExplained(
      doc: Document, root: CosObject, nodes: seq<Node>, origins: seq<CosObject>, node: Node, value: CosObject)
    requires Explains(doc, root, nodes, origins)
    requires Describes(doc, root, nodes + [node], origins + [value], |nodes|)
    ensures Explains(doc, root, nodes + [node], origins + [value])
  {
    forall i | 0 <= i < |nodes|
      ensures Describes(doc, root, nodes + [node], origins + [value], i)
    {
      assert Describes(doc, root, nodes, origins, i);
      assert (nodes + [node])[i] == nodes[i] && (origins + [value])[i] == origins[i];
      hide IsElement, MarkedIn, Reversed, MarksObject, ChildOf, PageFor, Listed, IsLeaf;
    }
  }

  lemma LeavesOfArray(doc: Document, item: Item, origins: seq<CosObject>, value: CosObject)
    requires item.value.Array? && IsLeaf(item.value, value)
    ensures Met(value, origins, WithParent(item.value.items, item))
  {
    var k :| 0 <= k < |item.value.items| && IsLeaf(item.value.items[k], value);
    var below := WithParent(item.value.items, item);
    assert below[k] in below && below[k].value == item.value.items[k];
  }

  lemma ArrayDue(doc: Document, root: CosObject, nodes: seq<Node>, origins: seq<CosObject>, item: Item)
    requires |origins| == |nodes| && item.value.Array? && Due(doc, root, nodes, origins, item)
    ensures AllDue(doc, root, nodes, origins, WithParent(item.value.items, item))
  {
    var below := WithParent(item.value.items, item);
    forall b | b in below
      ensures Due(doc, root, nodes, origins, b)
    {
      var k :| 0 <= k < |below| && b == below[k];
      forall v | IsLeaf(b.value, v)
        ensures IsLeaf(root, v)
      {
        assert IsLeaf(item.value.items[k], v) && IsLeaf(item.value, v);
      }
    }
  }

  lemma KidsDue(
      doc: Document, root: CosObject, nodes: seq<Node>, origins: seq<CosObject>, depth: nat)
    requires nodes != [] && Explains(doc, root, nodes, origins)
    ensures var last := |nodes| - 1;
            && Denoted(doc, origins[last]).Some?
            && var d := Denoted(doc, origins[last]).value;
               var below := ChildrenAmong(doc, Listed(d), nodes[last].page, last, depth);
               && AllDue(doc, root, nodes, origins, below)
               && forall kid | ChildOf(doc, origins[last], kid) :: Met(kid, origins, below)
  {
    var last := |nodes| - 1;
    assert Describes(doc, root, nodes, origins, last);
    var d := Denoted(doc, origins[last]).value;
    var page := nodes[last].page;
    var below := ChildrenAmong(doc, Listed(d), page, last, depth);
    hide Describes, Explains, KidOf, MarksContent, MarksObject, Listed, ChildrenAmong;
    forall item | item in below
      ensures Due(doc, root, nodes, origins, item)
    {
      ChildrenAreKids(doc, Listed(d), page, last, depth, item);
      KidIsMarked(doc, item.value, page);
    }
    forall kid | ChildOf(doc, origins[last], kid)
      ensures Met(kid, origins, below)
    {
      KidIsMarked(doc, kid, page);
      KidsAreChildren(doc, Listed(d), page, last, depth, kid);
      var item :| item in below && item.value == kid;
      assert IsLeaf(item.value, kid);
    }
  }

  /** An item that is new to the walk. */
  predicate IsNew(doc: Document, item: Item, w: Walk) {
    && !item.value.Array? && IsElement(doc, item.value)
    && (item.value.Reference? ==> item.value.key !in w.visited)
  }

  /** Nothing is found at an item that is no element or was followed before. */
  lemma NothingFound(doc: Document, item: Item, w: Walk)
    requires !item.value.Array? && !IsNew(doc, item, w)
    ensures var (next, below) := Expand(doc, item, w);
            && next.nodes == w.nodes && below == []
            && forall key | key in next.visited && IsElement(doc, Reference(key)) :: key in w.visited
  {
    DictionaryIsDenoted(doc, item.value);
    var d := Denoted(doc, item.value);
    if d.Some? {
      DictionaryTests(d.value, None);
    }
    hide NodeFor, ChildrenAmong, RoleName, IsMcr, IsObjr, Denoted;
  }

  lemma NodeFound(doc: Document, item: Item, w: Walk)
    requires IsNew(doc, item, w)
    ensures var found := StructureDictionary(doc, item.value);
            var (next, below) := Expand(doc, item, w);
            && found.Some? && RoleName(found.value.dictionary).Some?
            && var node := NodeFor(doc, found.value, RoleName(found.value.dictionary).value, item);
               && next.nodes == w.nodes + [node]
               && next.visited == w.visited + (if item.value.Reference? then {item.value.key} else {})
               && Denoted(doc, item.value) == Some(found.value.dictionary)
               && below == ChildrenAmong(doc, Listed(found.value.dictionary), node.page, |w.nodes|, item.depth + 1)
  {
    DictionaryIsDenoted(doc, item.value);
    DictionaryTests(Denoted(doc, item.value).value, None);
    hide NodeFor, ChildrenAmong, RoleName, IsMcr, IsObjr, Denoted, KidsOf, Listed;
  }

  lemma NodeAdded(
      doc: Document, root: CosObject, item: Item, w: Walk, origins: seq<CosObject>, next: Walk, node: Node,
      below: seq<Item>)
    requires Sound(doc, root, w, origins) && next.nodes == w.nodes + [node]
    requires next.visited == w.visited + (if item.value.Reference? then {item.value.key} else {})
    requires Describes(doc, root, next.nodes, origins + [item.value], |w.nodes|)
    requires IsElement(doc, item.value)
    requires below == ChildrenAmong(doc, Listed(Denoted(doc, item.value).value), node.page, |w.nodes|, item.depth + 1)
    ensures var more := origins + [item.value];
            && Sound(doc, root, next, more) && AllDue(doc, root, next.nodes, more, below)
            && Closed(doc, more, |origins|, below)
  {
    var more := origins + [item.value];
    NodeExplained(doc, root, w.nodes, origins, node, item.value);
    FollowedFound(doc, item, w, next, origins);
    KidsDue(doc, root, next.nodes, more, item.depth + 1);
    hide IsElement, ChildOf, Denoted, Listed, ChildrenAmong, Describes, Explains, AllDue, Met;
  }

  lemma NewElement(doc: Document, root: CosObject, item: Item, w: Walk, origins: seq<CosObject>)
    requires Sound(doc, root, w, origins) && Due(doc, root, w.nodes, origins, item) && IsNew(doc, item, w)
    ensures var (next, below) := Expand(doc, item, w);
            var more := origins + [item.value];
            && Sound(doc, root, next, more) && AllDue(doc, root, next.nodes, more, below)
            && Closed(doc, more, |origins|, below)
  {
    NodeDescribes(doc, root, w.nodes, origins, item);
    NodeFound(doc, item, w);
    var (next, below) := Expand(doc, item, w);
    hide Expand, NodeFor, StructureDictionary, RoleName, Describes, ChildrenAmong, Listed, Due, Explains, IsLeaf, ChildOf;
    NodeAdded(doc, root, item, w, origins, next, next.nodes[|w.nodes|], below);
  }

  lemma FollowedFound(doc: Document, item: Item, w: Walk, next: Walk, origins: seq<CosObject>)
    requires forall key | key in w.visited && IsElement(doc, Reference(key)) :: Reference(key) in origins
    requires next.visited == w.visited + (if item.value.Reference? then {item.value.key} else {})
    ensures forall key | key in next.visited && IsElement(doc, Reference(key)) :: Reference(key) in origins + [item.value]
  {
    hide IsElement;
  }

  /** One step of the walk: the element at the item is found, and what is below it is due. */
  lemma ExpandReaches(doc: Document, root: CosObject, item: Item, w: Walk, origins: seq<CosObject>)
    returns (more: seq<CosObject>)
    requires Sound(doc, root, w, origins) && Due(doc, root, w.nodes, origins, item)
    ensures var (next, below) := Expand(doc, item, w);
            && Sound(doc, root, next, more) && origins <= more && AllDue(doc, root, next.nodes, more, below)
            && (forall v | IsLeaf(item.value, v) && IsElement(doc, v) :: Met(v, more, below))
            && Closed(doc, more, |origins|, below)
  {
    more := origins;
    if item.value.Array? {
      ArrayDue(doc, root, w.nodes, origins, item);
      forall v | IsLeaf(item.value, v) && IsElement(doc, v)
        ensures Met(v, more, WithParent(item.value.items, item))
      {
        LeavesOfArray(doc, item, more, v);
      }
      hide Due, IsElement, ChildOf, IsLeaf, Explains, Met;
    } else if IsNew(doc, item, w) {
      NewElement(doc, root, item, w, origins);
      more := origins + [item.value];
      hide Expand, Due, IsElement, ChildOf, Explains, Sound, AllDue, Closed;
    } else {
      NothingFound(doc, item, w);
      hide Expand, Due, IsElement, ChildOf, Explains;
    }
  }

  // ---------------------------------------------------------------------------------------------
  // The whole walk
  // ---------------------------------------------------------------------------------------------

  lemma StillDue(
      doc: Document, root: CosObject, nodes: seq<Node>, origins: seq<CosObject>, more: seq<Node>, all: seq<CosObject>,
      items: seq<Item>)
    requires |origins| == |nodes| && |all| == |more| && nodes <= more && origins <= all
    requires AllDue(doc, root, nodes, origins, items) && items != []
    ensures AllDue(doc, root, more, all, items[1..])
  {
    forall item | item in items[1..]
      ensures Due(doc, root, more, all, item)
    {
      assert Due(doc, root, nodes, origins, item);
    }
  }

  ghost predicate AllMet(doc: Document, items: seq<Item>, origins: seq<CosObject>) {
    forall item, v | item in items && IsLeaf(item.value, v) && IsElement(doc, v) :: v in origins
  }

  /** What was due behind a step has been found, once the items below the step and the others have been walked. */
  lemma WalkedAll(
      doc: Document, items: seq<Item>, below: seq<Item>, origins: seq<CosObject>, more: seq<CosObject>,
      mid: seq<CosObject>, all: seq<CosObject>)
    requires items != [] && origins <= more <= mid <= all
    requires forall v | IsLeaf(items[0].value, v) && IsElement(doc, v) :: Met(v, more, below)
    requires Closed(doc, more, |origins|, below) && Closed(doc, mid, |more|, []) && Closed(doc, all, |mid|, [])
    requires AllMet(doc, below, mid) && AllMet(doc, items[1..], all)
    ensures AllMet(doc, items, all) && Closed(doc, all, |origins|, [])
  {
    hide IsElement, ChildOf, IsLeaf;
    forall item, v | item in items && IsLeaf(item.value, v) && IsElement(doc, v)
      ensures v in all
    {
      if item == items[0] {
        assert Met(v, more, below);
      } else {
        assert item in items[1..];
      }
    }
    forall i, kid | |origins| <= i < |all| && ChildOf(doc, all[i], kid)
      ensures Met(kid, all, [])
    {
      KidIsElement(doc, all[i], kid);
      if i < |more| {
        assert Met(kid, more, below);
      } else if i < |mid| {
        assert Met(kid, mid, []);
      }
    }
  }

  lemma KidIsElement(doc: Document, parent: CosObject, kid: CosObject)
    requires ChildOf(doc, parent, kid)
    ensures IsElement(doc, kid)
  {
  }

  lemma {:induction false} WalkReaches(
      doc: Document, root: CosObject, items: seq<Item>, w: Walk, origins: seq<CosObject>)
    returns (all: seq<CosObject>)
    requires Sound(doc, root, w, origins) && AllDue(doc, root, w.nodes, origins, items)
    ensures Sound(doc, root, VisitAll(doc, items, w), all) && origins <= all
    ensures AllMet(doc, items, all) && Closed(doc, all, |origins|, [])
    decreases Unvisited(doc, w.visited), ItemsSize(items)
  {
    all := origins;
    if items != [] {
      hide Expand, Unvisited, Due, IsElement, ChildOf, IsLeaf, Met, Describes;
      var (next, below) := Expand(doc, items[0], w);
      var more := ExpandReaches(doc, root, items[0], w, origins);
      ExpandDecreases(doc, items[0], w);
      hide AllMet, Closed;
      var mid := WalkReaches(doc, root, below, next, more);
      var after := VisitAll(doc, below, next);
      UnvisitedShrinks(doc, w.visited, after.visited);
      StillDue(doc, root, w.nodes, origins, after.nodes, mid, items);
      VisitAllOnce(doc, items, w);
      all := WalkReaches(doc, root, items[1..], after, mid);
      WalkedAll(doc, items, below, origins, more, mid, all);
    }
  }

  // ---------------------------------------------------------------------------------------------
  // What the walk finds
  // ---------------------------------------------------------------------------------------------

  /** Every element found can be reached. */
  lemma {:induction false} FoundIsReached(
      doc: Document, root: CosObject, nodes: seq<Node>, origins: seq<CosObject>, i: nat)
    requires i < |nodes| && Explains(doc, root, nodes, origins)
    ensures Reaches(doc, root, origins[i])
    decreases i
  {
    assert Describes(doc, root, nodes, origins, i);
    hide ChildOf, IsElement, Explains;
    match nodes[i].parent
    case None =>
      assert IsPath(doc, root, [origins[i]]);
    case Some(p) =>
      FoundIsReached(doc, root, nodes, origins, p);
      var path :| IsPath(doc, root, path) && path[|path| - 1] == origins[p];
      PathGoesOn(doc, root, path, origins[i]);
  }

  lemma PathGoesOn(doc: Document, root: CosObject, path: seq<CosObject>, kid: CosObject)
    requires IsPath(doc, root, path) && ChildOf(doc, path[|path| - 1], kid)
    ensures Reaches(doc, root, kid)
  {
    hide ChildOf, IsElement, IsLeaf;
    var longer := path + [kid];
    forall i | 0 < i < |longer|
      ensures ChildOf(doc, longer[i - 1], longer[i])
    {
      if i < |path| {
        assert ChildOf(doc, path[i - 1], path[i]);
      }
    }
    assert IsPath(doc, root, longer);
  }

  /** Every element that can be reached is found. */
  lemma {:induction false} ReachedIsFound(
      doc: Document, root: CosObject, origins: seq<CosObject>, path: seq<CosObject>)
    requires IsPath(doc, root, path) && Closed(doc, origins, 0, [])
    requires forall v | IsLeaf(root, v) && IsElement(doc, v) :: v in origins
    ensures path[|path| - 1] in origins
    decreases |path|
  {
    hide ChildOf, IsElement, IsLeaf;
    if |path| > 1 {
      var before := path[..|path| - 1];
      assert IsPath(doc, root, before) by {
        forall i | 0 < i < |before|
          ensures ChildOf(doc, before[i - 1], before[i])
        {
          assert ChildOf(doc, path[i - 1], path[i]);
        }
      }
      ReachedIsFound(doc, root, origins, before);
      var i :| 0 <= i < |origins| && origins[i] == before[|before| - 1];
      var kid := path[|path| - 1];
      assert ChildOf(doc, path[|path| - 2], kid);
      assert Met(kid, origins, []);
    }
  }

  /** The nodes of the walk are exactly the structure elements that can be reached from the root through kids:
      there are values, one for each node and nothing but what can be reached, that the nodes describe; and no
      indirect object has two nodes. */
  lemma NodesAreTheReachable(doc: Document, root: CosObject)
    ensures var nodes := VisitAll(doc, [Item(root, None, None, 0)], START).nodes;
            && (exists origins: seq<CosObject> ::
                  Explains(doc, root, nodes, origins) && forall v :: v in origins <==> Reaches(doc, root, v))
            && (forall i, j | 0 <= i < j < |nodes| && nodes[i].key.Some? :: nodes[i].key != nodes[j].key)
  {
    var item := Item(root, None, None, 0);
    var end := VisitAll(doc, [item], START);
    hide VisitAll;
    StructureWalk.FirstItem(root);
    WalkKeepsForest(doc, [item], START);
    var origins := WalkReaches(doc, root, [item], START, []);
    assert item in [item];
    hide ChildOf, IsElement, IsLeaf;
    forall v
      ensures v in origins <==> Reaches(doc, root, v)
    {
      if v in origins {
        var i :| 0 <= i < |origins| && origins[i] == v;
        FoundIsReached(doc, root, end.nodes, origins, i);
      }
      if Reaches(doc, root, v) {
        var path :| IsPath(doc, root, path) && path[|path| - 1] == v;
        ReachedIsFound(doc, root, origins, path);
      }
    }
  }

  lemma KeysAreOrigins(doc: Document, root: CosObject, nodes: seq<Node>, origins: seq<CosObject>, key: ObjectKey)
    requires Explains(doc, root, nodes, origins)
    ensures (exists i :: 0 <= i < |nodes| && nodes[i].key == Some(key)) <==> Reference(key) in origins
  {
    forall i | 0 <= i < |nodes|
      ensures nodes[i].key == Target(Some(origins[i]))
    {
      assert Describes(doc, root, nodes, origins, i);
    }
    hide Explains, Describes;
    if Reference(key) in origins {
      var i :| 0 <= i < |origins| && origins[i] == Reference(key);
      assert nodes[i].key == Some(key);
    }
  }

  /** For indirect objects: the keys of the nodes are exactly those of the elements that can be reached. */
  lemma KeysAreTheReachable(doc: Document, root: CosObject, key: ObjectKey)
    ensures var nodes := VisitAll(doc, [Item(root, None, None, 0)], START).nodes;
            (exists i :: 0 <= i < |nodes| && nodes[i].key == Some(key)) <==> Reaches(doc, root, Reference(key))
  {
    NodesAreTheReachable(doc, root);
    var nodes := VisitAll(doc, [Item(root, None, None, 0)], START).nodes;
    hide VisitAll, Reaches, Explains;
    var origins: seq<CosObject> :|
      Explains(doc, root, nodes, origins) && forall v :: v in origins <==> Reaches(doc, root, v);
    KeysAreOrigins(doc, root, nodes, origins, key);
  }
}
