/**
 * The materialized-path tree of citation units (`Node` in the atlas models).
 *
 * A node's `path` is a concatenation of fixed-width steps; its depth is the
 * number of steps, its parent's path is the path minus the last step, and a
 * node is an ancestor of every node whose path its own path prefixes. The
 * store is the `Node` table as a sequence, in path order.
 */
module NodeTree {
  import opened Common
  import opened Strings

  /** Width of one path step (treebeard's `MP_Node.steplen`). */
  const StepLen: nat := 4

  /** The typed part of a node's JSON `metadata` that the core reads. */
  datatype Metadata = Metadata(labelText: Option<string>, citationScheme: Option<seq<string>>)

  datatype Node = Node(
    pk: nat,
    path: string,
    kind: string,
    urn: string,
    ref: string,
    rank: Option<int>,
    textContent: string,
    metadata: Metadata,
    idx: Option<int>)

  /** `int(len(path) / steplen)` */
  function Depth(path: string): nat
  {
    |path| / StepLen
  }

  /** A path made of at least one whole step. */
  predicate WellFormedPath(p: string)
  {
    |p| >= StepLen && |p| % StepLen == 0
  }

  /** `_get_basepath(path, depth - 1)`: the path cut to its first `depth - 1` steps. */
  function ParentPath(p: string): (r: string)
    requires WellFormedPath(p)
    ensures IsStrictPrefix(r, p) && |r| == |p| - StepLen
    ensures Depth(r) + 1 == Depth(p)
  {
    p[..(Depth(p) - 1) * StepLen]
  }

  // ---------------------------------------------------------------------------
  // What ingestion guarantees of the store

  /** Paths strictly increase along the store, so no two nodes share a path. */
  predicate PathOrdered(store: seq<Node>)
  {
    forall i, j :: 0 <= i < j < |store| ==> LexLess(store[i].path, store[j].path)
  }

  predicate UniquePks(store: seq<Node>)
  {
    forall i, j :: 0 <= i < |store| && 0 <= j < |store| && i != j ==> store[i].pk != store[j].pk
  }

  /** Every node below the top level has its parent in the store. */
  predicate ParentClosed(store: seq<Node>)
    requires forall n <- store :: WellFormedPath(n.path)
  {
    forall n <- store :: Depth(n.path) > 1 ==> exists m <- store :: m.path == ParentPath(n.path)
  }

  predicate WellFormedStore(store: seq<Node>)
  {
    && (forall n <- store :: WellFormedPath(n.path))
    && PathOrdered(store)
    && UniquePks(store)
    && ParentClosed(store)
  }

  lemma SamePathSameNode(store: seq<Node>, a: Node, b: Node)
    requires PathOrdered(store) && a in store && b in store && a.path == b.path
    ensures a == b
  {
    var i :| 0 <= i < |store| && store[i] == a;
    var j :| 0 <= j < |store| && store[j] == b;
    if i != j {
      LexLessIrreflexive(a.path);
    }
  }

  // ---------------------------------------------------------------------------
  // Single-node properties

  /** `Node.label`: the metadata label, falling back to the URN. */
  function Label(n: Node): (r: string)
    ensures n.metadata.labelText.Some? ==> r == n.metadata.labelText.value
    ensures n.metadata.labelText.None? ==> r == n.urn
  {
    match n.metadata.labelText
    case Some(l) => l
    case None => n.urn
  }

  /** `Node.lowest_citable_part`: the last dotted segment of `ref`, or nothing for a falsy rank. */
  function LowestCitablePart(n: Node): (r: Option<string>)
    ensures r.None? <==> !Truthy(n.rank)
    ensures r.Some? ==> '.' !in r.value
  {
    if !Truthy(n.rank) then None else Some(LastSegment(n.ref, '.'))
  }

  lemma {:induction false} JoinLast(parts: seq<string>, sep: string)
    requires |parts| >= 2
    ensures Join(parts, sep) == Join(parts[..|parts| - 1], sep) + sep + parts[|parts| - 1]
  {
    if |parts| > 2 {
      JoinLast(parts[1..], sep);
      assert parts[1..][..|parts| - 2] == parts[..|parts| - 1][1..];
    }
  }

  /**
   * For a truthy rank the lowest citable part is the longest dot-free tail of
   * `ref`: `ref` ends with it, and it is the whole of `ref` or follows a dot.
   */
  lemma LowestCitablePartIsLastSegment(n: Node)
    ensures !Truthy(n.rank) <==> LowestCitablePart(n).None?
    ensures Truthy(n.rank) ==>
      var part := LowestCitablePart(n).value;
      && '.' !in part
      && |part| <= |n.ref| && n.ref[|n.ref| - |part|..] == part
      && (|part| == |n.ref| || n.ref[|n.ref| - |part| - 1] == '.')
  {
    if Truthy(n.rank) {
      var parts := SplitOn(n.ref, '.');
      var part := parts[|parts| - 1];
      JoinSplit(n.ref, '.');
      if |parts| >= 2 {
        JoinLast(parts, ".");
        var front := Join(parts[..|parts| - 1], ".");
        assert n.ref == front + "." + part;
      } else {
        assert n.ref == part;
      }
    }
  }

  // ---------------------------------------------------------------------------
  // Queries over the store

  /** `Node.get_descendants`: prefix and depth filter in path order, self excluded by primary key. */
  function Descendants(store: seq<Node>, self: Node): (r: seq<Node>)
    ensures |r| <= |store|
    ensures forall n <- r :: n in store && n.pk != self.pk && StartsWith(n.path, self.path)
  {
    Filter(store, (n: Node) => StartsWith(n.path, self.path) && Depth(n.path) >= Depth(self.path) && n.pk != self.pk)
  }

  /**
   * `Node.get_children`: the nodes one level down inside the path interval
   * `self` owns, that is, the nodes of depth `depth + 1` whose path starts with
   * `self.path`.
   */
  function Children(store: seq<Node>, self: Node): (r: seq<Node>)
    ensures |r| <= |store|
    ensures forall c <- r :: c in store && IsStrictPrefix(self.path, c.path)
  {
    Filter(store, (n: Node) => Depth(n.path) == Depth(self.path) + 1 && StartsWith(n.path, self.path))
  }

  /** `Node.get_refpart_siblings`: the descendants of `version` with this node's rank. */
  function RefpartSiblings(store: seq<Node>, self: Node, version: Node): (r: seq<Node>)
    ensures !Truthy(self.rank) ==> r == []
    ensures forall n <- r :: n in Descendants(store, version) && n.rank == self.rank
  {
    if !Truthy(self.rank) then []
    else Filter(Descendants(store, version), (n: Node) => n.rank == self.rank)
  }

  /**
   * The descendants of a stored node are exactly the stored nodes whose path
   * strictly extends its path, and they come in path order.
   */
  lemma DescendantsAreStrictExtensions(store: seq<Node>, self: Node)
    requires WellFormedStore(store) && self in store
    ensures forall n :: n in Descendants(store, self) <==> n in store && IsStrictPrefix(self.path, n.path)
    ensures PathOrdered(Descendants(store, self))
  {
    forall n | n in store
      ensures n in Descendants(store, self) <==> IsStrictPrefix(self.path, n.path)
    {
      if n.path == self.path {
        SamePathSameNode(store, n, self);
      } else if IsStrictPrefix(self.path, n.path) {
        var i :| 0 <= i < |store| && store[i] == n;
        var j :| 0 <= j < |store| && store[j] == self;
        assert n.pk != self.pk;
      }
    }
    FilterPairwise(store, (n: Node) => StartsWith(n.path, self.path) && Depth(n.path) >= Depth(self.path) && n.pk != self.pk,
      (a: Node, b: Node) => LexLess(a.path, b.path));
  }

  /** One more level of depth is one more step of path. */
  lemma DepthStep(p: string, q: string)
    requires WellFormedPath(p) && WellFormedPath(q)
    ensures Depth(q) == Depth(p) + 1 <==> |q| == |p| + StepLen
  {
  }

  /**
   * The children of a node are exactly the stored nodes whose parent path is
   * its path, in path order; each of them is also a descendant.
   */
  lemma ChildrenHaveParentPath(store: seq<Node>, self: Node)
    requires WellFormedStore(store) && self in store
    ensures forall c :: c in Children(store, self) <==> c in store && ParentPath(c.path) == self.path
    ensures forall c :: c in Children(store, self) ==> c in Descendants(store, self)
    ensures PathOrdered(Children(store, self))
  {
    DescendantsAreStrictExtensions(store, self);
    forall c | c in store
      ensures c in Children(store, self) <==> ParentPath(c.path) == self.path
    {
      DepthStep(self.path, c.path);
    }
    FilterPairwise(store, (n: Node) => Depth(n.path) == Depth(self.path) + 1 && StartsWith(n.path, self.path),
      (a: Node, b: Node) => LexLess(a.path, b.path));
  }

  /**
   * Refpart siblings are all the version's descendants that share the rank,
   * whatever their parent; a falsy rank has none.
   */
  lemma RefpartSiblingsByRank(store: seq<Node>, self: Node, version: Node)
    requires WellFormedStore(store) && version in store
    ensures !Truthy(self.rank) ==> RefpartSiblings(store, self, version) == []
    ensures Truthy(self.rank) ==>
      forall n :: n in RefpartSiblings(store, self, version) <==>
        n in store && IsStrictPrefix(version.path, n.path) && n.rank == self.rank
    ensures PathOrdered(RefpartSiblings(store, self, version))
  {
    DescendantsAreStrictExtensions(store, version);
    FilterPairwise(Descendants(store, version), (n: Node) => n.rank == self.rank,
      (a: Node, b: Node) => LexLess(a.path, b.path));
  }

  /** Lines 1.611 and 2.1 of one version are refpart siblings although their books differ. */
  lemma RefpartSiblingsCrossBooks()
    ensures
      var version := Node(1, "0001", "version", "v", "", None, "", Metadata(None, None), None);
      var book1 := Node(2, "00010001", "book", "v1", "1", Some(1), "", Metadata(None, None), None);
      var line1611 := Node(3, "000100010001", "line", "v1.611", "1.611", Some(2), "", Metadata(None, None), None);
      var book2 := Node(4, "00010002", "book", "v2", "2", Some(1), "", Metadata(None, None), None);
      var line21 := Node(5, "000100020001", "line", "v2.1", "2.1", Some(2), "", Metadata(None, None), None);
      var store := [version, book1, line1611, book2, line21];
      && ParentPath(line1611.path) != ParentPath(line21.path)
      && line21 in RefpartSiblings(store, line1611, version)
  {
    var version := Node(1, "0001", "version", "v", "", None, "", Metadata(None, None), None);
    var book1 := Node(2, "00010001", "book", "v1", "1", Some(1), "", Metadata(None, None), None);
    var line1611 := Node(3, "000100010001", "line", "v1.611", "1.611", Some(2), "", Metadata(None, None), None);
    var book2 := Node(4, "00010002", "book", "v2", "2", Some(1), "", Metadata(None, None), None);
    var line21 := Node(5, "000100020001", "line", "v2.1", "2.1", Some(2), "", Metadata(None, None), None);
    var store := [version, book1, line1611, book2, line21];
    assert ParentPath(line1611.path) == "00010001";
    assert ParentPath(line21.path) == "00010002";
    assert StartsWith(line21.path, version.path) by {
      assert line21.path[..4] == "0001";
    }
    InDescendants(store, version, 4);
  }

  lemma InDescendants(store: seq<Node>, self: Node, i: nat)
    requires i < |store|
    requires StartsWith(store[i].path, self.path) && Depth(store[i].path) >= Depth(self.path) && store[i].pk != self.pk
    ensures store[i] in Descendants(store, self)
  {
  }
}
