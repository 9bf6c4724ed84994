/** The pages of a document: an explicit-stack walk of the page tree, and what it finds in any graph. */
module PageTree {
  import opened Bytes
  import opened Cos
  import opened StructureTree
  import opened StructureWalk

  predicate IsPage(doc: Document, key: ObjectKey) {
    key in doc && doc[key].AsDictionary().Some? && IsName(Get(doc[key].AsDictionary().value, "Type"), "Page")
  }

  /** The references among a list of values, in order. */
  function References(values: seq<CosObject>): seq<ObjectKey> {
    if values == [] then []
    else (if values[0].Reference? then [values[0].key] else []) + References(values[1..])
  }

  /** The kids of a page tree node; a page has none. */
  function KidKeys(doc: Document, key: ObjectKey): seq<ObjectKey> {
    if key !in doc || doc[key].AsDictionary().None? || IsPage(doc, key) then []
    else
      var kids := Get(doc[key].AsDictionary().value, "Kids");
      if kids.Some? && kids.value.Array? then References(kids.value.items) else []
  }

  datatype PageWalk = PageWalk(visited: set<ObjectKey>, pages: seq<ObjectKey>)

  /** The recursive walk; nothing when more than `max` keys have to be visited. */
  function VisitPages(doc: Document, keys: seq<ObjectKey>, w: PageWalk, max: nat): (r: Option<PageWalk>)
    requires |w.visited| <= max
    ensures r.Some? ==> w.visited <= r.value.visited && |r.value.visited| <= max
    decreases max - |w.visited|, |keys|
  {
    if keys == [] then Some(w)
    else if keys[0] in w.visited then VisitPages(doc, keys[1..], w, max)
    else
      var visited := w.visited + {keys[0]};
      if |visited| > max then None
      else if IsPage(doc, keys[0]) then
        VisitPages(doc, keys[1..], PageWalk(visited, w.pages + [keys[0]]), max)
      else
        var below := VisitPages(doc, KidKeys(doc, keys[0]), PageWalk(visited, w.pages), max);
        if below.None? then None
        else
          SubsetSize(visited, below.value.visited);
          VisitPages(doc, keys[1..], below.value, max)
  }

  // ---------------------------------------------------------------------------------------------
  // The explicit stack
  // ---------------------------------------------------------------------------------------------

  lemma {:induction false} VisitPagesSplits(
      doc: Document, a: seq<ObjectKey>, b: seq<ObjectKey>, w: PageWalk, max: nat)
    requires |w.visited| <= max
    ensures var first := VisitPages(doc, a, w, max);
            VisitPages(doc, a + b, w, max) == if first.None? then None else VisitPages(doc, b, first.value, max)
    decreases max - |w.visited|, |a|
  {
    hide KidKeys, IsPage;
    if a == [] {
      assert a + b == b;
    } else {
      assert (a + b)[0] == a[0] && (a + b)[1..] == a[1..] + b;
      var visited := w.visited + {a[0]};
      if a[0] in w.visited {
        VisitPagesSplits(doc, a[1..], b, w, max);
      } else if |visited| <= max {
        if IsPage(doc, a[0]) {
          VisitPagesSplits(doc, a[1..], b, PageWalk(visited, w.pages + [a[0]]), max);
        } else {
          var below := VisitPages(doc, KidKeys(doc, a[0]), PageWalk(visited, w.pages), max);
          if below.Some? {
            SubsetSize(visited, below.value.visited);
            VisitPagesSplits(doc, a[1..], b, below.value, max);
          }
        }
      }
    }
  }

  /** One round of the loop: what is below a node comes in front of what is still to be visited. */
  lemma VisitNext(doc: Document, key: ObjectKey, rest: seq<ObjectKey>, w: PageWalk, max: nat)
    requires |w.visited| <= max
    ensures var visited := w.visited + {key};
            VisitPages(doc, [key] + rest, w, max)
            == if key in w.visited then VisitPages(doc, rest, w, max)
               else if |visited| > max then None
               else if IsPage(doc, key) then VisitPages(doc, rest, PageWalk(visited, w.pages + [key]), max)
               else VisitPages(doc, KidKeys(doc, key) + rest, PageWalk(visited, w.pages), max)
  {
    hide KidKeys, IsPage;
    assert ([key] + rest)[1..] == rest;
    var visited := w.visited + {key};
    if key !in w.visited && |visited| <= max && !IsPage(doc, key) {
      VisitPagesSplits(doc, KidKeys(doc, key), rest, PageWalk(visited, w.pages), max);
    }
  }

  /** Collects the pages below the root of the page tree, which may be missing. */
  method CollectPages(doc: Document, root: Option<ObjectKey>, maxObjects: nat) returns (r: Result<seq<ObjectKey>>)
    ensures root.None? ==> r == Ok([])
    ensures root.Some? ==>
              var walk := VisitPages(doc, [root.value], PageWalk({}, []), maxObjects);
              r == if walk.None? then Err(LimitExceeded(MaxObjects)) else Ok(walk.value.pages)
  {
    hide KidKeys, IsPage, VisitPages, Reversed;
    var pages: seq<ObjectKey> := [];
    if root.None? {
      return Ok(pages);
    }
    var stack := [root.value];
    var visited: set<ObjectKey> := {};
    ReversedOne(root.value);
    while stack != []
      invariant |visited| <= maxObjects
      invariant VisitPages(doc, Reversed(stack), PageWalk(visited, pages), maxObjects)
             == VisitPages(doc, [root.value], PageWalk({}, []), maxObjects)
      decreases maxObjects - |visited|, |stack|
    {
      ReversedLast(stack);
      var key := stack[|stack| - 1];
      stack := stack[..|stack| - 1];
      VisitNext(doc, key, Reversed(stack), PageWalk(visited, pages), maxObjects);
      if key in visited {
        continue;
      }
      visited := visited + {key};
      if |visited| > maxObjects {
        return Err(LimitExceeded(MaxObjects));
      }
      if IsPage(doc, key) {
        pages := pages + [key];
        continue;
      }
      var kids := KidKeys(doc, key);
      ReversedSplits(stack, Reversed(kids));
      ReversedTwice(kids);
      stack := stack + Reversed(kids);
    }
    NothingToVisit(doc, PageWalk(visited, pages), maxObjects);
    return Ok(pages);
  }

  lemma NothingToVisit(doc: Document, w: PageWalk, max: nat)
    requires |w.visited| <= max
    ensures Reversed<ObjectKey>([]) == [] && VisitPages(doc, [], w, max) == Some(w)
  {
  }

  // ---------------------------------------------------------------------------------------------
  // What the walk finds
  // ---------------------------------------------------------------------------------------------

  ghost predicate IsPath(doc: Document, path: seq<ObjectKey>) {
    path != [] && forall i | 0 < i < |path| :: path[i] in KidKeys(doc, path[i - 1])
  }

  ghost predicate Reaches(doc: Document, from: ObjectKey, key: ObjectKey) {
    exists path :: IsPath(doc, path) && path[0] == from && path[|path| - 1] == key
  }

  ghost predicate ReachedFrom(doc: Document, keys: seq<ObjectKey>, key: ObjectKey) {
    exists k | 0 <= k < |keys| :: Reaches(doc, keys[k], key)
  }

  ghost predicate HasKids(doc: Document, visited: set<ObjectKey>, key: ObjectKey) {
    forall kid | kid in KidKeys(doc, key) :: kid in visited
  }

  predicate Distinct(pages: seq<ObjectKey>) {
    forall i, j | 0 <= i < j < |pages| :: pages[i] != pages[j]
  }

  /** What a walk has done: it has visited its keys and everything below them and nothing else, and found
      the pages among them. */
  ghost predicate Explored(doc: Document, keys: seq<ObjectKey>, before: PageWalk, after: PageWalk) {
    && before.visited <= after.visited
    && (forall key | key in keys :: key in after.visited)
    && (forall key | key in after.visited && key !in before.visited ::
          HasKids(doc, after.visited, key) && ReachedFrom(doc, keys, key))
    && (forall key :: key in after.pages <==>
          key in before.pages || (key in after.visited && key !in before.visited && IsPage(doc, key)))
  }

  ghost predicate PagesOk(w: PageWalk) {
    Distinct(w.pages) && forall key | key in w.pages :: key in w.visited
  }

  lemma ReachesItself(doc: Document, key: ObjectKey)
    ensures Reaches(doc, key, key)
  {
    assert IsPath(doc, [key]);
  }

  lemma ReachesBelow(doc: Document, from: ObjectKey, kid: ObjectKey, key: ObjectKey)
    requires kid in KidKeys(doc, from) && Reaches(doc, kid, key)
    ensures Reaches(doc, from, key)
  {
    hide KidKeys;
    var path :| IsPath(doc, path) && path[0] == kid && path[|path| - 1] == key;
    var longer := [from] + path;
    forall i | 0 < i < |longer|
      ensures longer[i] in KidKeys(doc, longer[i - 1])
    {
      if i > 1 {
        assert path[i - 1] in KidKeys(doc, path[i - 2]);
      }
    }
    assert IsPath(doc, longer);
  }

  lemma ReachedFromFirst(doc: Document, keys: seq<ObjectKey>, key: ObjectKey)
    requires keys != []
    ensures Reaches(doc, keys[0], key) ==> ReachedFrom(doc, keys, key)
    ensures ReachedFrom(doc, keys[1..], key) ==> ReachedFrom(doc, keys, key)
    ensures !IsPage(doc, keys[0]) && ReachedFrom(doc, KidKeys(doc, keys[0]), key) ==> ReachedFrom(doc, keys, key)
  {
    hide KidKeys, Reaches, IsPage;
    if ReachedFrom(doc, keys[1..], key) {
      var k :| 0 <= k < |keys[1..]| && Reaches(doc, keys[1..][k], key);
      assert Reaches(doc, keys[k + 1], key);
    }
    var kids := KidKeys(doc, keys[0]);
    if ReachedFrom(doc, kids, key) {
      var k :| 0 <= k < |kids| && Reaches(doc, kids[k], key);
      ReachesBelow(doc, keys[0], kids[k], key);
    }
  }

  lemma {:induction false} VisitExplores(doc: Document, keys: seq<ObjectKey>, w: PageWalk, max: nat)
    requires |w.visited| <= max && PagesOk(w)
    ensures var r := VisitPages(doc, keys, w, max);
            r.Some? ==> Explored(doc, keys, w, r.value) && PagesOk(r.value)
    decreases max - |w.visited|, |keys|
  {
    hide KidKeys, IsPage, ReachedFrom, HasKids;
    if keys != [] && VisitPages(doc, keys, w, max).Some? {
      var key, rest := keys[0], keys[1..];
      var visited := w.visited + {key};
      if key in w.visited {
        VisitExplores(doc, rest, w, max);
        Skipped(doc, keys, w, VisitPages(doc, rest, w, max).value);
      } else if IsPage(doc, key) {
        var next := PageWalk(visited, w.pages + [key]);
        VisitExplores(doc, rest, next, max);
        PageFound(doc, keys, w, VisitPages(doc, rest, next, max).value);
      } else {
        var next := PageWalk(visited, w.pages);
        var below := VisitPages(doc, KidKeys(doc, key), next, max).value;
        SubsetSize(visited, below.visited);
        VisitExplores(doc, KidKeys(doc, key), next, max);
        VisitExplores(doc, rest, below, max);
        NodeExplored(doc, keys, w, below, VisitPages(doc, rest, below, max).value);
      }
    }
  }

  lemma Skipped(doc: Document, keys: seq<ObjectKey>, w: PageWalk, r: PageWalk)
    requires keys != [] && keys[0] in w.visited && Explored(doc, keys[1..], w, r)
    ensures Explored(doc, keys, w, r)
  {
    hide KidKeys, IsPage, ReachedFrom, HasKids;
    forall key | key in r.visited && key !in w.visited
      ensures ReachedFrom(doc, keys, key)
    {
      ReachedFromFirst(doc, keys, key);
    }
    assert forall key | key in keys :: key == keys[0] || key in keys[1..];
  }

  lemma PageFound(doc: Document, keys: seq<ObjectKey>, w: PageWalk, r: PageWalk)
    requires keys != [] && keys[0] !in w.visited && IsPage(doc, keys[0])
    requires Explored(doc, keys[1..], PageWalk(w.visited + {keys[0]}, w.pages + [keys[0]]), r)
    ensures Explored(doc, keys, w, r)
  {
    assert KidKeys(doc, keys[0]) == [];
    hide KidKeys, IsPage, ReachedFrom, Reaches;
    ReachesItself(doc, keys[0]);
    forall key | key in r.visited && key !in w.visited
      ensures HasKids(doc, r.visited, key) && ReachedFrom(doc, keys, key)
    {
      ReachedFromFirst(doc, keys, key);
    }
    assert forall key | key in keys :: key == keys[0] || key in keys[1..];
  }

  lemma NodeExplored(doc: Document, keys: seq<ObjectKey>, w: PageWalk, below: PageWalk, r: PageWalk)
    requires keys != [] && keys[0] !in w.visited && !IsPage(doc, keys[0])
    requires Explored(doc, KidKeys(doc, keys[0]), PageWalk(w.visited + {keys[0]}, w.pages), below)
    requires Explored(doc, keys[1..], below, r)
    ensures Explored(doc, keys, w, r)
  {
    hide KidKeys, IsPage, ReachedFrom, Reaches;
    ReachesItself(doc, keys[0]);
    forall key | key in r.visited && key !in w.visited
      ensures HasKids(doc, r.visited, key) && ReachedFrom(doc, keys, key)
    {
      ReachedFromFirst(doc, keys, key);
    }
    assert forall key | key in keys :: key == keys[0] || key in keys[1..];
  }

  /** A set that holds everything below itself holds every path that begins in it. */
  lemma {:induction false} ClosedHoldsPaths(doc: Document, closed: set<ObjectKey>, path: seq<ObjectKey>)
    requires IsPath(doc, path) && path[0] in closed && forall key | key in closed :: HasKids(doc, closed, key)
    ensures path[|path| - 1] in closed
  {
    if |path| > 1 {
      hide KidKeys;
      assert path[1] in KidKeys(doc, path[0]);
      assert HasKids(doc, closed, path[0]);
      assert IsPath(doc, path[1..]) by {
        forall i | 0 < i < |path[1..]|
          ensures path[1..][i] in KidKeys(doc, path[1..][i - 1])
        {
          assert path[i + 1] in KidKeys(doc, path[i]);
        }
      }
      ClosedHoldsPaths(doc, closed, path[1..]);
    }
  }

  /** The pages are the page objects that can be reached from the root, each once, whatever the graph. */
  lemma PagesAreTheReachable(doc: Document, root: ObjectKey, max: nat)
    requires VisitPages(doc, [root], PageWalk({}, []), max).Some?
    ensures var pages := VisitPages(doc, [root], PageWalk({}, []), max).value.pages;
            Distinct(pages) && forall key :: key in pages <==> Reaches(doc, root, key) && IsPage(doc, key)
  {
    hide KidKeys, IsPage, VisitPages;
    var start := PageWalk({}, []);
    var end := VisitPages(doc, [root], start, max).value;
    VisitExplores(doc, [root], start, max);
    VisitedIsReached(doc, root, end);
  }

  /** Nothing outside a closed set is visited, so its size bounds the walk. */
  lemma {:induction false} VisitStaysWithin(
      doc: Document, keys: seq<ObjectKey>, w: PageWalk, closed: set<ObjectKey>, max: nat)
    requires |w.visited| <= max && |closed| <= max && w.visited <= closed
    requires (forall key | key in keys :: key in closed) && forall key | key in closed :: HasKids(doc, closed, key)
    ensures var r := VisitPages(doc, keys, w, max); r.Some? && r.value.visited <= closed
    decreases max - |w.visited|, |keys|
  {
    hide KidKeys, IsPage;
    if keys != [] {
      var key, rest := keys[0], keys[1..];
      var visited := w.visited + {key};
      SubsetSize(visited, closed);
      if key in w.visited {
        VisitStaysWithin(doc, rest, w, closed, max);
      } else if IsPage(doc, key) {
        VisitStaysWithin(doc, rest, PageWalk(visited, w.pages + [key]), closed, max);
      } else {
        var next := PageWalk(visited, w.pages);
        assert HasKids(doc, closed, key);
        VisitStaysWithin(doc, KidKeys(doc, key), next, closed, max);
        var below := VisitPages(doc, KidKeys(doc, key), next, max).value;
        SubsetSize(visited, below.visited);
        VisitStaysWithin(doc, rest, below, closed, max);
      }
    }
  }

  /** The walk succeeds exactly when everything the root reaches fits into `max` keys. */
  lemma WalkFitsIff(doc: Document, root: ObjectKey, max: nat)
    ensures VisitPages(doc, [root], PageWalk({}, []), max).Some?
            <==> exists all: set<ObjectKey> :: |all| <= max && forall key :: key in all <==> Reaches(doc, root, key)
  {
    hide KidKeys, IsPage, VisitPages;
    var start := PageWalk({}, []);
    if VisitPages(doc, [root], start, max).Some? {
      var end := VisitPages(doc, [root], start, max).value;
      VisitExplores(doc, [root], start, max);
      VisitedIsReached(doc, root, end);
    }
    if all: set<ObjectKey> :| |all| <= max && forall key :: key in all <==> Reaches(doc, root, key) {
      ReachesItself(doc, root);
      forall key | key in all
        ensures HasKids(doc, all, key)
      {
        forall kid | kid in KidKeys(doc, key)
          ensures Reaches(doc, root, kid)
        {
          ReachesFurther(doc, root, key, kid);
        }
      }
      VisitStaysWithin(doc, [root], start, all, max);
    }
  }

  lemma VisitedIsReached(doc: Document, root: ObjectKey, end: PageWalk)
    requires Explored(doc, [root], PageWalk({}, []), end)
    ensures forall key :: key in end.visited <==> Reaches(doc, root, key)
  {
    hide KidKeys, IsPage;
    forall key
      ensures key in end.visited <==> Reaches(doc, root, key)
    {
      if Reaches(doc, root, key) {
        var path :| IsPath(doc, path) && path[0] == root && path[|path| - 1] == key;
        assert root in [root];
        ClosedHoldsPaths(doc, end.visited, path);
      }
      if key in end.visited {
        assert ReachedFrom(doc, [root], key);
      }
    }
  }

  lemma ReachesFurther(doc: Document, from: ObjectKey, key: ObjectKey, kid: ObjectKey)
    requires Reaches(doc, from, key) && kid in KidKeys(doc, key)
    ensures Reaches(doc, from, kid)
  {
    hide KidKeys;
    var path :| IsPath(doc, path) && path[0] == from && path[|path| - 1] == key;
    var longer := path + [kid];
    forall i | 0 < i < |longer|
      ensures longer[i] in KidKeys(doc, longer[i - 1])
    {
      if i < |path| {
        assert path[i] in KidKeys(doc, path[i - 1]);
      }
    }
    assert IsPath(doc, longer);
  }
}
