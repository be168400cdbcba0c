/** The collection hierarchy and item fields read from a Zotero library
    database. The rows of each query are inputs; SQLite itself is not modelled.
    A collection is an object: its identity and parent id never change, and
    the linking pass fills in its parent key and its children in place. */
module ZoteroDb {
  import opened Strings
  import opened Sorting

  /** A row of `SELECT collectionID, collectionName, parentCollectionID, key`. */
  datatype CollectionRow = CollectionRow(collectionId: int, name: string, parentId: Option<int>, key: string)

  class ZoteroCollection {
    const collectionId: int
    const key: string
    const name: string
    const parentId: Option<int>
    var parentKey: Option<string>
    var children: seq<ZoteroCollection>

    constructor (collectionId: int, key: string, name: string, parentId: Option<int>)
      ensures this.collectionId == collectionId && this.key == key && this.name == name
      ensures this.parentId == parentId
      ensures parentKey == None && children == []
    {
      this.collectionId := collectionId;
      this.key := key;
      this.name := name;
      this.parentId := parentId;
      parentKey := None;
      children := [];
    }
  }

  /** `collectionID` is the table's primary key. */
  predicate DistinctIds(rows: seq<CollectionRow>) {
    forall i, j :: 0 <= i < j < |rows| ==> rows[i].collectionId != rows[j].collectionId
  }

  predicate FromRow(c: ZoteroCollection, row: CollectionRow) {
    c.collectionId == row.collectionId && c.key == row.key && c.name == row.name && c.parentId == row.parentId
  }

  /** The collections whose parent id names `id`, in map order. */
  function ChildrenOf(order: seq<ZoteroCollection>, id: int): (r: seq<ZoteroCollection>)
    ensures forall k :: 0 <= k < |r| ==> r[k] in order && r[k].parentId == Some(id)
    ensures forall k :: 0 <= k < |order| && order[k].parentId == Some(id) ==> order[k] in r
    decreases |order|
  {
    if |order| == 0 then []
    else
      var c := order[|order| - 1];
      assert order == order[..|order| - 1] + [c];
      ChildrenOf(order[..|order| - 1], id) + (if c.parentId == Some(id) then [c] else [])
  }

  /** The collection's parent, when its parent id names a collection of the map. */
  predicate Linked(cmap: map<int, ZoteroCollection>, c: ZoteroCollection) {
    c.parentId.Some? && c.parentId.value in cmap
  }

  /** `_build_collections_map`: one collection per row, then the linking pass
      that sets each linked collection's parent key and appends it to its
      parent's children. */
  method BuildCollectionsMap(rows: seq<CollectionRow>)
    returns (cmap: map<int, ZoteroCollection>, order: seq<ZoteroCollection>)
    requires DistinctIds(rows)
    ensures |order| == |rows|
    ensures forall i :: 0 <= i < |rows| ==> fresh(order[i]) && FromRow(order[i], rows[i])
    ensures forall i, j :: 0 <= i < j < |order| ==> order[i] != order[j]
    ensures forall id :: id in cmap <==> exists i :: 0 <= i < |rows| && rows[i].collectionId == id
    ensures forall i :: 0 <= i < |rows| ==> rows[i].collectionId in cmap && cmap[rows[i].collectionId] == order[i]
    ensures forall i :: 0 <= i < |order| ==>
              order[i].parentKey == if Linked(cmap, order[i]) then Some(cmap[order[i].parentId.value].key) else None
    ensures forall i :: 0 <= i < |order| ==> order[i].children == ChildrenOf(order, order[i].collectionId)
  {
    cmap, order := map[], [];
    var r := 0;
    while r < |rows|
      invariant 0 <= r <= |rows| && |order| == r
      invariant forall i :: 0 <= i < r ==> fresh(order[i]) && FromRow(order[i], rows[i])
      invariant forall i :: 0 <= i < r ==> order[i].parentKey == None && order[i].children == []
      invariant forall i, j :: 0 <= i < j < r ==> order[i] != order[j]
      invariant forall id :: id in cmap <==> exists i :: 0 <= i < r && rows[i].collectionId == id
      invariant forall i :: 0 <= i < r ==> rows[i].collectionId in cmap && cmap[rows[i].collectionId] == order[i]
    {
      var row := rows[r];
      var c := new ZoteroCollection(row.collectionId, row.key, row.name, row.parentId);
      cmap := cmap[row.collectionId := c];
      order := order + [c];
      r := r + 1;
    }
    LinkCollections(cmap, order);
  }

  /** The linking pass over the collections in map order. */
  method LinkCollections(cmap: map<int, ZoteroCollection>, order: seq<ZoteroCollection>)
    requires forall i, j :: 0 <= i < j < |order| ==> order[i] != order[j]
    requires forall i :: 0 <= i < |order| ==> order[i].parentKey == None && order[i].children == []
    requires forall id :: id in cmap ==> exists j :: 0 <= j < |order| && order[j].collectionId == id
    requires forall i :: 0 <= i < |order| ==> order[i].collectionId in cmap && cmap[order[i].collectionId] == order[i]
    modifies set c | c in order
    ensures forall i :: 0 <= i < |order| ==>
              order[i].parentKey == if Linked(cmap, order[i]) then Some(cmap[order[i].parentId.value].key) else None
    ensures forall i :: 0 <= i < |order| ==> order[i].children == ChildrenOf(order, order[i].collectionId)
  {
    var k := 0;
    while k < |order|
      invariant 0 <= k <= |order|
      invariant forall i :: 0 <= i < |order| ==>
                  order[i].parentKey
                  == if i < k && Linked(cmap, order[i]) then Some(cmap[order[i].parentId.value].key) else None
      invariant forall i :: 0 <= i < |order| ==> order[i].children == ChildrenOf(order[..k], order[i].collectionId)
    {
      LinkOne(cmap, order, k);
      k := k + 1;
    }
    assert order[..k] == order;
  }

  /** One round of the linking pass: the `k`-th collection gets its parent key
      and joins its parent's children. */
  method LinkOne(cmap: map<int, ZoteroCollection>, order: seq<ZoteroCollection>, k: nat)
    requires k < |order|
    requires forall i, j :: 0 <= i < j < |order| ==> order[i] != order[j]
    requires forall id :: id in cmap ==> exists j :: 0 <= j < |order| && order[j].collectionId == id
    requires forall i :: 0 <= i < |order| ==> order[i].collectionId in cmap && cmap[order[i].collectionId] == order[i]
    requires forall i :: 0 <= i < |order| ==>
               order[i].parentKey
               == if i < k && Linked(cmap, order[i]) then Some(cmap[order[i].parentId.value].key) else None
    requires forall i :: 0 <= i < |order| ==> order[i].children == ChildrenOf(order[..k], order[i].collectionId)
    modifies set c | c in order
    ensures forall i :: 0 <= i < |order| ==>
              order[i].parentKey
              == if i < k + 1 && Linked(cmap, order[i]) then Some(cmap[order[i].parentId.value].key) else None
    ensures forall i :: 0 <= i < |order| ==> order[i].children == ChildrenOf(order[..k + 1], order[i].collectionId)
  {
    var c := order[k];
    if c.parentId.Some? && c.parentId.value in cmap {
      var parent := cmap[c.parentId.value];
      var p :| 0 <= p < |order| && order[p].collectionId == c.parentId.value;
      assert parent == order[p];
      c.parentKey := Some(parent.key);
      parent.children := parent.children + [c];
      forall i | 0 <= i < |order|
        ensures order[i].parentKey
                == if i < k + 1 && Linked(cmap, order[i]) then Some(cmap[order[i].parentId.value].key) else None
      {
        if i != k {
          assert order[i] != c;
        }
      }
      forall i | 0 <= i < |order|
        ensures order[i].children == ChildrenOf(order[..k + 1], order[i].collectionId)
      {
        ChildrenOfSnoc(order, k, order[i].collectionId);
        if order[i] == parent {
          assert order[i].children == old(order[i].children) + [c];
        } else {
          assert c.parentId != Some(order[i].collectionId);
          assert order[i].children == old(order[i].children);
        }
      }
    } else {
      forall i | 0 <= i < |order|
        ensures order[i].children == ChildrenOf(order[..k + 1], order[i].collectionId)
      {
        ChildrenOfSnoc(order, k, order[i].collectionId);
        assert c.parentId != Some(order[i].collectionId);
      }
    }
  }

  lemma ChildrenOfSnoc(order: seq<ZoteroCollection>, k: nat, id: int)
    requires k < |order|
    ensures ChildrenOf(order[..k + 1], id)
            == ChildrenOf(order[..k], id) + if order[k].parentId == Some(id) then [order[k]] else []
  {
    assert order[..k + 1][..k] == order[..k];
  }

  /** `ChildrenOf` keeps map order: the children found in `a + b` are those
      found in `a`, then those found in `b`. */
  lemma {:induction false} ChildrenOfAppend(a: seq<ZoteroCollection>, b: seq<ZoteroCollection>, id: int)
    ensures ChildrenOf(a + b, id) == ChildrenOf(a, id) + ChildrenOf(b, id)
    decreases |b|
  {
    if |b| == 0 {
      assert a + b == a;
    } else {
      assert (a + b)[..|a + b| - 1] == a + b[..|b| - 1];
      ChildrenOfAppend(a, b[..|b| - 1], id);
    }
  }

  /** No collection is listed twice among the children of one parent. */
  lemma {:induction false} ChildrenOfDistinct(order: seq<ZoteroCollection>, id: int)
    requires forall i, j :: 0 <= i < j < |order| ==> order[i] != order[j]
    ensures forall k, l :: 0 <= k < l < |ChildrenOf(order, id)| ==> ChildrenOf(order, id)[k] != ChildrenOf(order, id)[l]
    decreases |order|
  {
    if |order| > 0 {
      var init := order[..|order| - 1];
      var c := order[|order| - 1];
      ChildrenOfDistinct(init, id);
      assert c !in init;
    }
  }

  /** With distinct collection ids, the linking pass puts a collection in at
      most one children list. */
  lemma OneParentList(order: seq<ZoteroCollection>, j: nat, k: nat, c: ZoteroCollection)
    requires forall i :: 0 <= i < |order| ==> order[i].children == ChildrenOf(order, order[i].collectionId)
    requires forall i, l :: 0 <= i < l < |order| ==> order[i].collectionId != order[l].collectionId
    requires j < |order| && k < |order|
    requires c in order[j].children && c in order[k].children
    ensures j == k
  {
    assert c.parentId == Some(order[j].collectionId) && c.parentId == Some(order[k].collectionId);
  }

  /** The next collection up: the parent, when it is in the map. */
  function Up(cmap: map<int, ZoteroCollection>, c: ZoteroCollection): Option<ZoteroCollection> {
    if Linked(cmap, c) then Some(cmap[c.parentId.value]) else None
  }

  /** Following parent ids from `c` reaches, within `n` steps, a collection
      without a parent in the map; on a cycle of parent ids it never does. */
  predicate Ends(cmap: map<int, ZoteroCollection>, c: ZoteroCollection, n: nat)
    decreases n
  {
    Up(cmap, c).None? || (n > 0 && Ends(cmap, Up(cmap, c).value, n - 1))
  }

  /** The names from the topmost ancestor down to `c`. */
  function PathNames(cmap: map<int, ZoteroCollection>, c: ZoteroCollection, n: nat): (r: seq<string>)
    requires Ends(cmap, c, n)
    ensures |r| > 0 && r[|r| - 1] == c.name
    decreases n
  {
    match Up(cmap, c)
    case None => [c.name]
    case Some(parent) => PathNames(cmap, parent, n - 1) + [c.name]
  }

  /** The path does not depend on how generous the step bound is. */
  lemma {:induction false} PathNamesBound(cmap: map<int, ZoteroCollection>, c: ZoteroCollection, n: nat, m: nat)
    requires Ends(cmap, c, n) && Ends(cmap, c, m)
    ensures PathNames(cmap, c, n) == PathNames(cmap, c, m)
    decreases n
  {
    if Up(cmap, c).Some? {
      PathNamesBound(cmap, Up(cmap, c).value, n - 1, m - 1);
    }
  }

  function FullPath(cmap: map<int, ZoteroCollection>, c: ZoteroCollection, n: nat): string
    requires Ends(cmap, c, n)
  {
    Join(PathNames(cmap, c, n), " / ")
  }

  /** `get_full_path`: the loop that climbs the parent ids, putting each
      ancestor's name in front. */
  method GetFullPath(c: ZoteroCollection, cmap: map<int, ZoteroCollection>, ghost n: nat) returns (path: string)
    requires Ends(cmap, c, n)
    ensures path == FullPath(cmap, c, n)
  {
    var pathParts := [c.name];
    var current := c;
    ghost var steps: nat := 0;
    while current.parentId.Some? && current.parentId.value in cmap
      invariant steps <= n && Ends(cmap, current, n - steps)
      invariant |pathParts| > 0 && pathParts[0] == current.name
      invariant PathNames(cmap, c, n) == PathNames(cmap, current, n - steps) + pathParts[1..]
      decreases n - steps
    {
      var parent := cmap[current.parentId.value];
      assert PathNames(cmap, current, n - steps) == PathNames(cmap, parent, n - steps - 1) + [current.name];
      assert [current.name] + pathParts[1..] == pathParts;
      current := parent;
      steps := steps + 1;
      pathParts := [current.name] + pathParts;
    }
    assert PathNames(cmap, current, n - steps) == [current.name];
    path := Join(pathParts, " / ");
  }

  /** A collection's full path ends with its own name; one without a parent in
      the map (no parent, or a parent missing from the map) is just its name; and
      otherwise it is its parent's full path, ` / `, and its name. */
  lemma FullPathShape(cmap: map<int, ZoteroCollection>, c: ZoteroCollection, n: nat)
    requires Ends(cmap, c, n)
    ensures EndsWith(FullPath(cmap, c, n), c.name)
    ensures !Linked(cmap, c) ==> FullPath(cmap, c, n) == c.name
    ensures Linked(cmap, c) ==>
              FullPath(cmap, c, n) == FullPath(cmap, cmap[c.parentId.value], n - 1) + " / " + c.name
  {
    JoinEndsWithLast(PathNames(cmap, c, n), " / ");
    if Linked(cmap, c) {
      JoinSnoc(PathNames(cmap, cmap[c.parentId.value], n - 1), c.name, " / ");
    }
  }

  /** `get_collections_tree`: the collections without a parent id, in map
      order. */
  function Roots(order: seq<ZoteroCollection>): (r: seq<ZoteroCollection>)
    ensures forall k :: 0 <= k < |r| ==> r[k] in order && r[k].parentId.None?
    ensures forall k :: 0 <= k < |order| && order[k].parentId.None? ==> order[k] in r
    decreases |order|
  {
    if |order| == 0 then []
    else
      var c := order[|order| - 1];
      assert order == order[..|order| - 1] + [c];
      Roots(order[..|order| - 1]) + (if c.parentId.None? then [c] else [])
  }

  /** `Roots` keeps map order: the roots of `a + b` are those of `a`, then
      those of `b`. */
  lemma {:induction false} RootsAppend(a: seq<ZoteroCollection>, b: seq<ZoteroCollection>)
    ensures Roots(a + b) == Roots(a) + Roots(b)
    decreases |b|
  {
    if |b| == 0 {
      assert a + b == a;
    } else {
      assert (a + b)[..|a + b| - 1] == a + b[..|b| - 1];
      RootsAppend(a, b[..|b| - 1]);
    }
  }

  /** No collection is listed twice among the roots. */
  lemma {:induction false} RootsDistinct(order: seq<ZoteroCollection>)
    requires forall i, j :: 0 <= i < j < |order| ==> order[i] != order[j]
    ensures forall k, l :: 0 <= k < l < |Roots(order)| ==> Roots(order)[k] != Roots(order)[l]
    decreases |order|
  {
    if |order| > 0 {
      var init := order[..|order| - 1];
      RootsDistinct(init);
      assert order[|order| - 1] !in init;
    }
  }

  /** A collection whose parent is missing from the map is neither a root nor
      anyone's child, so the tree does not show it. */
  lemma OrphanHidden(cmap: map<int, ZoteroCollection>, order: seq<ZoteroCollection>, c: ZoteroCollection)
    requires forall i :: 0 <= i < |order| ==> order[i].collectionId in cmap
    requires c in order && c.parentId.Some? && !Linked(cmap, c)
    ensures c !in Roots(order)
    ensures forall i :: 0 <= i < |order| ==> c !in ChildrenOf(order, order[i].collectionId)
  {
    forall i | 0 <= i < |order|
      ensures c !in ChildrenOf(order, order[i].collectionId)
    {
      assert c.parentId != Some(order[i].collectionId);
    }
  }

  /** One entry of `get_collections`. */
  datatype CollectionInfo = CollectionInfo(
    id: int, name: string, parentId: Option<int>, key: string,
    parentKey: Option<string>, fullPath: string, childrenCount: nat)

  /** `get_collections`: one entry per collection, in map order; `n` bounds the
      climb to the top of every collection's ancestry. */
  function Collections(cmap: map<int, ZoteroCollection>, order: seq<ZoteroCollection>, n: nat): (r: seq<CollectionInfo>)
    reads order
    requires forall i :: 0 <= i < |order| ==> Ends(cmap, order[i], n)
    ensures |r| == |order|
    ensures forall i :: 0 <= i < |order| ==>
              r[i].id == order[i].collectionId && r[i].name == order[i].name && r[i].key == order[i].key
              && r[i].parentId == order[i].parentId && r[i].parentKey == order[i].parentKey
              && r[i].fullPath == FullPath(cmap, order[i], n) && r[i].childrenCount == |order[i].children|
    decreases |order|
  {
    if |order| == 0 then []
    else
      var c := order[|order| - 1];
      Collections(cmap, order[..|order| - 1], n)
      + [CollectionInfo(c.collectionId, c.name, c.parentId, c.key, c.parentKey, FullPath(cmap, c, n), |c.children|)]
  }

  /** After the map is built, an entry's parent key is the key of the collection
      its parent id names, and its children count is the number of
      collections that name it as parent. */
  lemma CollectionsAfterBuild(cmap: map<int, ZoteroCollection>, order: seq<ZoteroCollection>, n: nat, i: nat)
    requires forall j :: 0 <= j < |order| ==> Ends(cmap, order[j], n)
    requires forall j :: 0 <= j < |order| ==>
               order[j].parentKey == if Linked(cmap, order[j]) then Some(cmap[order[j].parentId.value].key) else None
    requires forall j :: 0 <= j < |order| ==> order[j].children == ChildrenOf(order, order[j].collectionId)
    requires i < |order|
    ensures Collections(cmap, order, n)[i].childrenCount == Count(order, order[i].collectionId)
    ensures Collections(cmap, order, n)[i].parentKey.Some? <==> Linked(cmap, order[i])
  {
    ChildrenCount(order, order[i].collectionId);
  }

  /** How many collections name `id` as their parent. */
  function Count(order: seq<ZoteroCollection>, id: int): nat
    decreases |order|
  {
    if |order| == 0 then 0
    else Count(order[..|order| - 1], id) + (if order[|order| - 1].parentId == Some(id) then 1 else 0)
  }

  lemma {:induction false} ChildrenCount(order: seq<ZoteroCollection>, id: int)
    ensures |ChildrenOf(order, id)| == Count(order, id)
    decreases |order|
  {
    if |order| > 0 {
      ChildrenCount(order[..|order| - 1], id);
    }
  }

  /** The key lookup of `get_items_in_collection`: the first collection in map
      order with the key. */
  method FindCollection(order: seq<ZoteroCollection>, key: string) returns (target: Option<ZoteroCollection>)
    ensures target.None? <==> forall i :: 0 <= i < |order| ==> order[i].key != key
    ensures target.Some? ==>
              exists i :: 0 <= i < |order| && order[i] == target.value && order[i].key == key
                          && forall j :: 0 <= j < i ==> order[j].key != key
  {
    target := None;
    var i := 0;
    while i < |order|
      invariant 0 <= i <= |order|
      invariant forall j :: 0 <= j < i ==> order[j].key != key
    {
      if order[i].key == key {
        target := Some(order[i]);
        return;
      }
      i := i + 1;
    }
  }

  /** Every child of a collection of `order` is in `order`. */
  predicate Closed(order: seq<ZoteroCollection>)
    reads order
  {
    forall i, k :: 0 <= i < |order| && 0 <= k < |order[i].children| ==> order[i].children[k] in order
  }

  predicate Within(cs: seq<ZoteroCollection>, order: seq<ZoteroCollection>) {
    forall k :: 0 <= k < |cs| ==> cs[k] in order
  }

  /** No chain of children below `cs` is longer than `n`; below a cycle of
      parent ids the recursion of `get_descendant_ids` runs until Python's
      recursion limit raises `RecursionError`. */
  predicate Bounded(order: seq<ZoteroCollection>, cs: seq<ZoteroCollection>, n: nat)
    reads order
    requires Closed(order) && Within(cs, order)
    decreases n, |cs|
  {
    |cs| == 0
    || ((|cs[0].children| == 0 || (n > 0 && Bounded(order, cs[0].children, n - 1))) && Bounded(order, cs[1..], n))
  }

  /** `get_descendant_ids` over a list of children, as collections: each child
      followed by its own descendants. */
  function Descendants(order: seq<ZoteroCollection>, cs: seq<ZoteroCollection>, n: nat): seq<ZoteroCollection>
    reads order
    requires Closed(order) && Within(cs, order) && Bounded(order, cs, n)
    decreases n, |cs|
  {
    if |cs| == 0 then []
    else
      [cs[0]]
      + (if |cs[0].children| == 0 then [] else Descendants(order, cs[0].children, n - 1))
      + Descendants(order, cs[1..], n)
  }

  /** Every child of a collection of `order` points back at it, as the linking
      pass leaves them. */
  predicate ChildrenPointBack(order: seq<ZoteroCollection>)
    reads order
  {
    forall i, k :: 0 <= i < |order| && 0 <= k < |order[i].children| ==>
      order[i].children[k].parentId == Some(order[i].collectionId)
  }

  lemma LinkedChildrenPointBack(order: seq<ZoteroCollection>)
    requires forall j :: 0 <= j < |order| ==> order[j].children == ChildrenOf(order, order[j].collectionId)
    ensures Closed(order) && ChildrenPointBack(order)
  {
  }

  /** Each collection's parent is `p` or a collection listed before it. */
  predicate PreOrder(r: seq<ZoteroCollection>, p: int) {
    forall k :: 0 <= k < |r| ==>
      r[k].parentId == Some(p) || exists j :: 0 <= j < k && r[k].parentId == Some(r[j].collectionId)
  }

  /** The descendants come in pre-order: each one's parent is the collection the
      search started from or an earlier descendant. */
  lemma {:induction false} DescendantsPreOrder(order: seq<ZoteroCollection>, cs: seq<ZoteroCollection>, n: nat, p: int)
    requires Closed(order) && ChildrenPointBack(order) && Within(cs, order) && Bounded(order, cs, n)
    requires forall k :: 0 <= k < |cs| ==> cs[k].parentId == Some(p)
    ensures PreOrder(Descendants(order, cs, n), p)
    decreases n, |cs|
  {
    if |cs| > 0 {
      var c := cs[0];
      var below := if |c.children| == 0 then [] else Descendants(order, c.children, n - 1);
      var rest := Descendants(order, cs[1..], n);
      var r := [c] + below + rest;
      assert c in order;
      if |c.children| > 0 {
        DescendantsPreOrder(order, c.children, n - 1, c.collectionId);
      }
      assert PreOrder(below, c.collectionId);
      DescendantsPreOrder(order, cs[1..], n, p);
      PreOrderConcat(c, below, rest, p);
    }
  }

  /** A collection whose parent is `p`, then a pre-order below it, then a
      pre-order under `p`, is a pre-order under `p`. */
  lemma PreOrderConcat(c: ZoteroCollection, below: seq<ZoteroCollection>, rest: seq<ZoteroCollection>, p: int)
    requires c.parentId == Some(p) && PreOrder(below, c.collectionId) && PreOrder(rest, p)
    ensures PreOrder([c] + below + rest, p)
  {
    var r := [c] + below + rest;
    forall k | 0 <= k < |r|
      ensures r[k].parentId == Some(p) || exists j :: 0 <= j < k && r[k].parentId == Some(r[j].collectionId)
    {
      if 0 < k <= |below| {
        var d := below[k - 1];
        assert r[k] == d;
        if d.parentId == Some(c.collectionId) {
          assert r[0] == c;
        } else {
          var j :| 0 <= j < k - 1 && d.parentId == Some(below[j].collectionId);
          assert r[j + 1] == below[j];
        }
      } else if k > |below| {
        var d := rest[k - 1 - |below|];
        assert r[k] == d;
        if d.parentId != Some(p) {
          var j :| 0 <= j < k - 1 - |below| && d.parentId == Some(rest[j].collectionId);
          assert r[j + 1 + |below|] == rest[j];
        }
      }
    }
  }

  /** The descendants hold the children they started from and every child of
      each of them, so every collection below is listed. */
  lemma {:induction false} DescendantsComplete(order: seq<ZoteroCollection>, cs: seq<ZoteroCollection>, n: nat)
    requires Closed(order) && Within(cs, order) && Bounded(order, cs, n)
    ensures var r := Descendants(order, cs, n);
            (forall k :: 0 <= k < |cs| ==> cs[k] in r)
            && forall k, m :: 0 <= k < |r| && 0 <= m < |r[k].children| ==> r[k].children[m] in r
    decreases n, |cs|
  {
    if |cs| > 0 {
      var c := cs[0];
      var below := if |c.children| == 0 then [] else Descendants(order, c.children, n - 1);
      var rest := Descendants(order, cs[1..], n);
      var r := [c] + below + rest;
      assert c in order;
      if |c.children| > 0 {
        DescendantsComplete(order, c.children, n - 1);
      }
      DescendantsComplete(order, cs[1..], n);
      forall k | 0 <= k < |cs|
        ensures cs[k] in r
      {
        if k > 0 {
          assert cs[k] == cs[1..][k - 1];
        }
      }
      assert ChildrenListed([c], below) by {
        forall m | 0 <= m < |c.children| ensures c.children[m] in below {
          assert c.children[m] == c.children[m..][0];
        }
      }
      ListedConcat(c, below, rest);
    }
  }

  /** Every child of a collection of `xs` is in `r`. */
  predicate ChildrenListed(xs: seq<ZoteroCollection>, r: seq<ZoteroCollection>)
    reads xs
  {
    forall k, m :: 0 <= k < |xs| && 0 <= m < |xs[k].children| ==> xs[k].children[m] in r
  }

  lemma ListedConcat(c: ZoteroCollection, below: seq<ZoteroCollection>, rest: seq<ZoteroCollection>)
    requires ChildrenListed([c], below) && ChildrenListed(below, below) && ChildrenListed(rest, rest)
    ensures ChildrenListed([c] + below + rest, [c] + below + rest)
  {
    var r := [c] + below + rest;
    forall k, m | 0 <= k < |r| && 0 <= m < |r[k].children|
      ensures r[k].children[m] in r
    {
      if k == 0 {
        assert [c][0].children[m] in below;
      } else if k <= |below| {
        assert r[k] == below[k - 1];
      } else {
        assert r[k] == rest[k - 1 - |below|];
      }
    }
  }

  function IdOf(c: ZoteroCollection): int {
    c.collectionId
  }

  /** The collection ids `get_items_in_collection` queries: none for an unknown
      key, otherwise the first collection with the key, followed, when
      subcollections are included, by the ids of all its descendants. */
  method CollectionIds(order: seq<ZoteroCollection>, key: string, includeSubcollections: bool, n: nat)
    returns (ids: seq<int>)
    requires Closed(order)
    requires includeSubcollections ==>
               forall i :: 0 <= i < |order| && order[i].key == key && (forall j :: 0 <= j < i ==> order[j].key != key) ==>
                 Bounded(order, order[i].children, n)
    ensures ids == [] <==> forall i :: 0 <= i < |order| ==> order[i].key != key
    ensures ids != [] ==>
              exists i :: 0 <= i < |order| && order[i].key == key && (forall j :: 0 <= j < i ==> order[j].key != key)
                          && ids[0] == order[i].collectionId
                          && ids[1..] == if includeSubcollections then MapSeq(Descendants(order, order[i].children, n), IdOf) else []
  {
    var target := FindCollection(order, key);
    if target.None? {
      return [];
    }
    var c := target.value;
    ghost var i :| 0 <= i < |order| && order[i] == c && order[i].key == key && forall j :: 0 <= j < i ==> order[j].key != key;
    ids := [c.collectionId];
    if includeSubcollections {
      ids := ids + MapSeq(Descendants(order, c.children, n), IdOf);
    }
  }

  /** A stored attachment path with Zotero's `storage:` prefix removed. */
  function StripStorage(path: Option<string>): (r: Option<string>)
    ensures r.None? <==> path.None?
    ensures path.Some? && StartsWith(path.value, "storage:") ==> "storage:" + r.value == path.value
    ensures !(path.Some? && StartsWith(path.value, "storage:")) ==> r == path
  {
    if path.Some? && StartsWith(path.value, "storage:") then Some(path.value[8..]) else path
  }

  lemma StripStorageInverse(p: string)
    ensures StripStorage(Some("storage:" + p)) == Some(p)
  {
    assert StartsWith("storage:" + p, "storage:");
  }

  /** An item's scalar fields; the lists filled by the other queries are not
      modelled. */
  class LocalZoteroItem {
    const itemId: int
    const key: string
    const itemType: string
    var title: string
    var date: string
    var abstractNote: string
    var doi: string
    var url: string

    constructor (itemId: int, key: string, itemType: string)
      ensures this.itemId == itemId && this.key == key && this.itemType == itemType
      ensures title == "" && date == "" && abstractNote == "" && doi == "" && url == ""
    {
      this.itemId := itemId;
      this.key := key;
      this.itemType := itemType;
      title, date, abstractNote, doi, url := "", "", "", "", "";
    }
  }

  /** A row of the item's field query: field name and value. */
  datatype FieldRow = FieldRow(fieldName: string, value: string)

  /** The value of the last row for `fieldName`, or `default` when there is none. */
  function LastValue(rows: seq<FieldRow>, fieldName: string, default: string): (r: string)
    ensures (forall i :: 0 <= i < |rows| ==> rows[i].fieldName != fieldName) ==> r == default
    ensures (exists i :: 0 <= i < |rows| && rows[i].fieldName == fieldName) ==>
              exists i :: 0 <= i < |rows| && rows[i].fieldName == fieldName && r == rows[i].value
                          && forall j :: i < j < |rows| ==> rows[j].fieldName != fieldName
    decreases |rows|
  {
    if |rows| == 0 then default
    else if rows[|rows| - 1].fieldName == fieldName then rows[|rows| - 1].value
    else
      var r := LastValue(rows[..|rows| - 1], fieldName, default);
      assert forall i :: 0 <= i < |rows| - 1 ==> rows[..|rows| - 1][i] == rows[i];
      r
  }

  /** `_populate_item_data`: each row sets the item field its name selects, so
      the last row for a field wins and rows for other fields are ignored. */
  method PopulateItemData(item: LocalZoteroItem, rows: seq<FieldRow>)
    modifies item
    ensures item.title == LastValue(rows, "title", old(item.title))
    ensures item.date == LastValue(rows, "date", old(item.date))
    ensures item.abstractNote == LastValue(rows, "abstractNote", old(item.abstractNote))
    ensures item.doi == LastValue(rows, "DOI", old(item.doi))
    ensures item.url == LastValue(rows, "url", old(item.url))
  {
    var i := 0;
    while i < |rows|
      invariant 0 <= i <= |rows|
      invariant item.title == LastValue(rows[..i], "title", old(item.title))
      invariant item.date == LastValue(rows[..i], "date", old(item.date))
      invariant item.abstractNote == LastValue(rows[..i], "abstractNote", old(item.abstractNote))
      invariant item.doi == LastValue(rows[..i], "DOI", old(item.doi))
      invariant item.url == LastValue(rows[..i], "url", old(item.url))
    {
      LastValueSnoc(rows, i, "title", old(item.title));
      LastValueSnoc(rows, i, "date", old(item.date));
      LastValueSnoc(rows, i, "abstractNote", old(item.abstractNote));
      LastValueSnoc(rows, i, "DOI", old(item.doi));
      LastValueSnoc(rows, i, "url", old(item.url));
      ApplyRow(item, rows[i]);
      i := i + 1;
    }
    assert rows[..i] == rows;
  }

  /** The field `row` leaves behind when the field named `fieldName` held `current`. */
  function After(current: string, row: FieldRow, fieldName: string): string {
    if row.fieldName == fieldName then row.value else current
  }

  /** One iteration of `_populate_item_data`'s loop. */
  method ApplyRow(item: LocalZoteroItem, row: FieldRow)
    modifies item
    ensures item.title == After(old(item.title), row, "title")
    ensures item.date == After(old(item.date), row, "date")
    ensures item.abstractNote == After(old(item.abstractNote), row, "abstractNote")
    ensures item.doi == After(old(item.doi), row, "DOI")
    ensures item.url == After(old(item.url), row, "url")
  {
    if row.fieldName == "title" {
      item.title := row.value;
    } else if row.fieldName == "date" {
      item.date := row.value;
    } else if row.fieldName == "abstractNote" {
      item.abstractNote := row.value;
    } else if row.fieldName == "DOI" {
      item.doi := row.value;
    } else if row.fieldName == "url" {
      item.url := row.value;
    }
  }

  lemma LastValueSnoc(rows: seq<FieldRow>, i: nat, fieldName: string, default: string)
    requires i < |rows|
    ensures LastValue(rows[..i + 1], fieldName, default)
         == After(LastValue(rows[..i], fieldName, default), rows[i], fieldName)
  {
    assert rows[..i + 1][..i] == rows[..i];
  }

  /** Rows for one field set it as if the rows for the other fields were absent;
      applying two batches of rows is applying them one after the other. */
  lemma {:induction false} LastValueAppend(a: seq<FieldRow>, b: seq<FieldRow>, fieldName: string, default: string)
    ensures LastValue(a + b, fieldName, default) == LastValue(b, fieldName, LastValue(a, fieldName, default))
    decreases |b|
  {
    if |b| == 0 {
      assert a + b == a;
    } else {
      assert (a + b)[..|a + b| - 1] == a + b[..|b| - 1];
      LastValueAppend(a, b[..|b| - 1], fieldName, default);
    }
  }
}
