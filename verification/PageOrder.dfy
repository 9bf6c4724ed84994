/** The pages of a page tree in order, section 7.7.3 of ISO 32000-1. */
module PageOrder {
  import opened Bytes
  import opened Cos
  import opened StructureTree
  import opened PageTree
  import StructureReach

  /** A page tree as the standard draws it. */
  datatype PageNode = Leaf(key: ObjectKey) | Branch(key: ObjectKey, kids: PageNodes)
  datatype PageNodes = NoNodes | Nodes(first: PageNode, others: PageNodes)

  predicate PageObject(doc: Document, key: ObjectKey) {
    var d := StructureReach.Denoted(doc, Reference(key));
    d.Some? && Ascii("Type") in d.value && d.value[Ascii("Type")] == Name(Ascii("Page"))
  }

  /** The kids a dictionary lists, if they are an array. */
  function KidsListed(doc: Document, key: ObjectKey): seq<CosObject> {
    var d := StructureReach.Denoted(doc, Reference(key));
    if d.None? || PageObject(doc, key) || Ascii("Kids") !in d.value then []
    else
      match d.value[Ascii("Kids")]
      case Array(items) => items
      case _ => []
  }

  lemma TestsAgree(doc: Document, key: ObjectKey)
    ensures IsPage(doc, key) <==> PageObject(doc, key)
    ensures KidKeys(doc, key) == References(KidsListed(doc, key))
  {
  }

  lemma {:induction false} ReferencesAre(values: seq<CosObject>, key: ObjectKey)
    ensures key in References(values) <==> Reference(key) in values
  {
    if values != [] {
      ReferencesAre(values[1..], key);
      assert values == [values[0]] + values[1..];
    }
  }

  /** A key is a kid in the walk exactly when a reference to it is listed. */
  lemma KidsAreListed(doc: Document, key: ObjectKey, kid: ObjectKey)
    ensures kid in KidKeys(doc, key) <==> Reference(kid) in KidsListed(doc, key)
  {
    TestsAgree(doc, key);
    ReferencesAre(KidsListed(doc, key), kid);
  }

  // ---------------------------------------------------------------------------------------------
  // Page order
  // ---------------------------------------------------------------------------------------------

  /** The references to the nodes, one after the other. */
  function Listing(nodes: PageNodes): seq<CosObject> {
    match nodes
    case NoNodes => []
    case Nodes(first, others) => [Reference(first.key)] + Listing(others)
  }

  /** The document draws the tree: leaves are pages, and each node lists exactly its kids. */
  predicate Draws(doc: Document, t: PageNode) {
    match t
    case Leaf(key) => PageObject(doc, key)
    case Branch(key, kids) => !PageObject(doc, key) && KidsListed(doc, key) == Listing(kids) && DrawsAll(doc, kids)
  }

  predicate DrawsAll(doc: Document, nodes: PageNodes) {
    match nodes
    case NoNodes => true
    case Nodes(first, others) => Draws(doc, first) && DrawsAll(doc, others)
  }

  function KeysIn(t: PageNode): seq<ObjectKey> {
    match t
    case Leaf(key) => [key]
    case Branch(key, kids) => [key] + KeysInAll(kids)
  }

  function KeysInAll(nodes: PageNodes): seq<ObjectKey> {
    match nodes
    case NoNodes => []
    case Nodes(first, others) => KeysIn(first) + KeysInAll(others)
  }

  /** The leaves from left to right. */
  function PagesIn(t: PageNode): seq<ObjectKey> {
    match t
    case Leaf(key) => [key]
    case Branch(_, kids) => PagesInAll(kids)
  }

  function PagesInAll(nodes: PageNodes): seq<ObjectKey> {
    match nodes
    case NoNodes => []
    case Nodes(first, others) => PagesIn(first) + PagesInAll(others)
  }

  function SetOf(keys: seq<ObjectKey>): set<ObjectKey> {
    set key | key in keys
  }

  /** Keys that the walk has not visited and has room for. */
  ghost predicate Fresh(keys: seq<ObjectKey>, w: PageWalk, max: nat) {
    Distinct(keys) && (forall key | key in keys :: key !in w.visited) && |w.visited| + |keys| <= max
  }

  ghost function Walked(w: PageWalk, keys: seq<ObjectKey>, pages: seq<ObjectKey>): PageWalk {
    PageWalk(w.visited + SetOf(keys), w.pages + pages)
  }

  lemma {:induction false} WalkedSize(visited: set<ObjectKey>, keys: seq<ObjectKey>)
    ensures |visited + SetOf(keys)| <= |visited| + |keys|
  {
    if keys == [] {
      assert visited + SetOf(keys) == visited;
    } else {
      var last := |keys| - 1;
      assert keys == keys[..last] + [keys[last]];
      assert visited + SetOf(keys) == (visited + SetOf(keys[..last])) + {keys[last]};
      WalkedSize(visited, keys[..last]);
    }
  }

  lemma FreshInTurn(a: seq<ObjectKey>, b: seq<ObjectKey>, w: PageWalk, pages: seq<ObjectKey>, max: nat)
    requires Fresh(a + b, w, max)
    ensures Fresh(a, w, max) && Fresh(b, Walked(w, a, pages), max)
  {
    WalkedSize(w.visited, a);
    forall i, j | 0 <= i < j < |a|
      ensures a[i] != a[j]
    {
      assert (a + b)[i] != (a + b)[j];
    }
    forall i, j | 0 <= i < j < |b|
      ensures b[i] != b[j]
    {
      assert (a + b)[|a| + i] != (a + b)[|a| + j];
    }
    forall key | key in b
      ensures key !in a
    {
      var j :| 0 <= j < |b| && b[j] == key;
      assert (a + b)[|a| + j] == key;
      assert forall i | 0 <= i < |a| :: (a + b)[i] == a[i] && (a + b)[i] != (a + b)[|a| + j];
    }
    assert forall key | key in a :: key in a + b;
    assert forall key | key in b :: key in a + b;
  }

  lemma WalkedInTurn(w: PageWalk, a: seq<ObjectKey>, pa: seq<ObjectKey>, b: seq<ObjectKey>, pb: seq<ObjectKey>)
    ensures Walked(Walked(w, a, pa), b, pb) == Walked(w, a + b, pa + pb)
  {
    assert w.visited + SetOf(a) + SetOf(b) == w.visited + SetOf(a + b);
    assert w.pages + pa + pb == w.pages + (pa + pb);
  }

  lemma {:induction false} NodeWalked(doc: Document, t: PageNode, w: PageWalk, max: nat)
    requires Draws(doc, t) && Fresh(KeysIn(t), w, max)
    ensures VisitPages(doc, [t.key], w, max) == Some(Walked(w, KeysIn(t), PagesIn(t)))
    decreases t
  {
    TestsAgree(doc, t.key);
    hide IsPage, KidKeys, PageObject, KidsListed;
    assert [t.key][1..] == [];
    assert t.key in KeysIn(t);
    WalkedSize(w.visited, [t.key]);
    assert w.visited + SetOf([t.key]) == w.visited + {t.key};
    match t
    case Leaf(key) =>
    case Branch(key, kids) =>
      FreshInTurn([key], KeysInAll(kids), w, [], max);
      var below := Walked(w, [key], []);
      assert below == PageWalk(w.visited + {key}, w.pages);
      NodesWalked(doc, kids, below, max);
      WalkedInTurn(w, [key], [], KeysInAll(kids), PagesInAll(kids));
      assert [] + PagesInAll(kids) == PagesInAll(kids);
  }

  lemma {:induction false} NodesWalked(doc: Document, nodes: PageNodes, w: PageWalk, max: nat)
    requires DrawsAll(doc, nodes) && Fresh(KeysInAll(nodes), w, max)
    ensures VisitPages(doc, References(Listing(nodes)), w, max)
         == Some(Walked(w, KeysInAll(nodes), PagesInAll(nodes)))
    decreases nodes
  {
    hide VisitPages;
    match nodes
    case NoNodes =>
      assert Walked(w, [], []) == w;
      NothingToVisit(doc, w, max);
    case Nodes(first, others) =>
      FreshInTurn(KeysIn(first), KeysInAll(others), w, PagesIn(first), max);
      NodeWalked(doc, first, w, max);
      var after := Walked(w, KeysIn(first), PagesIn(first));
      NodesWalked(doc, others, after, max);
      VisitPagesSplits(doc, [first.key], References(Listing(others)), w, max);
      assert Listing(nodes)[1..] == Listing(others);
      WalkedInTurn(w, KeysIn(first), PagesIn(first), KeysInAll(others), PagesInAll(others));
  }

  /** The pages of a page tree that the document draws come out from left to right. */
  lemma PagesInOrder(doc: Document, t: PageNode, max: nat)
    requires Draws(doc, t) && Distinct(KeysIn(t)) && |KeysIn(t)| <= max
    ensures var r := VisitPages(doc, [t.key], PageWalk({}, []), max);
            r.Some? && r.value.pages == PagesIn(t)
  {
    NodeWalked(doc, t, PageWalk({}, []), max);
  }
}
