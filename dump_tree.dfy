/**
 * `Node.dump_tree`: one pass over the path-ordered nodes that builds a nested
 * `{data, children}` forest. Each node's entry is appended either to the
 * top-level list or to the `children` of the entry the path index holds for
 * its parent path, and is then itself recorded in the index.
 *
 * The entries are shared dictionaries in the source: an entry already placed
 * in the forest still grows when a later child is appended to it. The method
 * models that sharing with an arena (entries addressed by their position in
 * the node sequence, children as lists of positions) and builds the nested
 * value at the end; the specification describes the nested value directly.
 */
module DumpTree {
  import opened Common
  import opened Strings
  import opened NodeTree

  datatype DumpError =
    | InvalidNodeKind(upTo: string)    // ValueError: `up_to` is not a CTS node kind
    | MissingParent(parentPath: string) // KeyError: `index[parentpath]`

  /** The serialized fields of a node without `path`, `depth` and `numchild` (the primary key is not among the fields). */
  datatype NodeData = NodeData(
    idx: Option<int>,
    kind: string,
    urn: string,
    ref: string,
    rank: Option<int>,
    textContent: string,
    metadata: Metadata)

  /** `{"data": ...}` with a `"children"` key only when some child was appended. */
  datatype TreeEntry = TreeEntry(data: NodeData, children: Option<seq<TreeEntry>>)

  function DataOf(n: Node): NodeData
  {
    NodeData(n.idx, n.kind, n.urn, n.ref, n.rank, n.textContent, n.metadata)
  }

  predicate WellFormedPaths(s: seq<Node>)
  {
    forall n <- s :: WellFormedPath(n.path)
  }

  // ---------------------------------------------------------------------------
  // Input handling

  /** `if up_to`: a missing or empty `up_to` is ignored. */
  predicate Given(upTo: Option<string>)
  {
    upTo.Some? && upTo.value != []
  }

  /** The depth bound `CTS_URN_DEPTHS[up_to]`, when `up_to` is given. */
  function MaxDepth(upTo: Option<string>, kindDepths: map<string, nat>): Option<nat>
    requires Given(upTo) ==> upTo.value in kindDepths
  {
    if Given(upTo) then Some(kindDepths[upTo.value]) else None
  }

  predicate KeepNode(n: Node, root: Option<Node>, maxDepth: Option<nat>)
  {
    && (root.None? || StartsWith(n.path, root.value.path))
    && (maxDepth.None? || Depth(n.path) <= maxDepth.value)
  }

  /**
   * The queryset: every node in path order, restricted to the root's subtree
   * (`path__startswith`) and to depths at most the bound (`exclude(depth__gt=...)`).
   */
  function Kept(store: seq<Node>, root: Option<Node>, maxDepth: Option<nat>): (kept: seq<Node>)
    ensures forall n :: n in kept <==> n in store && KeepNode(n, root, maxDepth)
    ensures WellFormedPaths(store) ==> WellFormedPaths(kept)
    ensures PathOrdered(store) ==> PathOrdered(kept)
  {
    if PathOrdered(store) then
      FilterPairwise(store, (n: Node) => KeepNode(n, root, maxDepth), (a: Node, b: Node) => LexLess(a.path, b.path));
      Filter(store, (n: Node) => KeepNode(n, root, maxDepth))
    else
      Filter(store, (n: Node) => KeepNode(n, root, maxDepth))
  }

  // ---------------------------------------------------------------------------
  // The structure the single pass produces, by position in the kept sequence

  /** Whether a node goes to the top-level list. */
  predicate IsTop(n: Node, root: Option<Node>)
  {
    (root.None? && Depth(n.path) == 1) || (root.Some? && |n.path| == |root.value.path|)
  }

  /** The entry `index[p]` holds after the first `k` nodes: the last of them with path `p`. */
  function LastIdx(kept: seq<Node>, p: string, k: nat): (r: Option<nat>)
    requires k <= |kept|
    ensures r.Some? ==> r.value < k && kept[r.value].path == p
  {
    if k == 0 then None
    else if kept[k - 1].path == p then Some(k - 1)
    else LastIdx(kept, p, k - 1)
  }

  /** `LastIdx` finds nothing only when no node so far has the path, and otherwise the last such node. */
  lemma {:induction false} LastIdxIsLast(kept: seq<Node>, p: string, k: nat)
    requires k <= |kept|
    ensures LastIdx(kept, p, k).None? <==> forall j :: 0 <= j < k ==> kept[j].path != p
    ensures LastIdx(kept, p, k).Some? ==> forall j :: LastIdx(kept, p, k).value < j < k ==> kept[j].path != p
  {
    if k > 0 && kept[k - 1].path != p {
      LastIdxIsLast(kept, p, k - 1);
    }
  }

  /** The position of the entry a non-top node is appended to, if the index has its parent path. */
  function Parent(kept: seq<Node>, root: Option<Node>, j: nat): (r: Option<nat>)
    requires WellFormedPaths(kept) && j < |kept|
    ensures r.Some? ==> !IsTop(kept[j], root) && r.value < j && kept[r.value].path == ParentPath(kept[j].path)
  {
    assert kept[j] in kept;
    if IsTop(kept[j], root) then None else LastIdx(kept, ParentPath(kept[j].path), j)
  }

  /** A non-top node whose parent path no earlier node has: the source's `KeyError`. */
  predicate Orphan(kept: seq<Node>, root: Option<Node>, j: nat)
    requires WellFormedPaths(kept) && j < |kept|
  {
    assert kept[j] in kept;
    !IsTop(kept[j], root) && LastIdx(kept, ParentPath(kept[j].path), j).None?
  }

  /** The first orphan at or after `j`. */
  function FirstOrphanFrom(kept: seq<Node>, root: Option<Node>, j: nat): (r: Option<nat>)
    requires WellFormedPaths(kept) && j <= |kept|
    ensures r.Some? ==> j <= r.value < |kept| && Orphan(kept, root, r.value)
    decreases |kept| - j
  {
    if j == |kept| then None
    else if Orphan(kept, root, j) then Some(j)
    else FirstOrphanFrom(kept, root, j + 1)
  }

  /** `FirstOrphanFrom` finds nothing only when there is no orphan, and otherwise the first one. */
  lemma {:induction false} FirstOrphanIsFirst(kept: seq<Node>, root: Option<Node>, j: nat)
    requires WellFormedPaths(kept) && j <= |kept|
    ensures FirstOrphanFrom(kept, root, j).None? <==> forall i :: j <= i < |kept| ==> !Orphan(kept, root, i)
    ensures FirstOrphanFrom(kept, root, j).Some? ==>
      forall i :: j <= i < FirstOrphanFrom(kept, root, j).value ==> !Orphan(kept, root, i)
    decreases |kept| - j
  {
    if j < |kept| && !Orphan(kept, root, j) {
      FirstOrphanIsFirst(kept, root, j + 1);
    }
  }

  /** The positions among the first `k` whose entry goes to the top-level list, in order. */
  function Tops(kept: seq<Node>, root: Option<Node>, k: nat): (r: seq<nat>)
    requires k <= |kept|
    ensures forall t :: 0 <= t < |r| ==> r[t] < k
  {
    if k == 0 then []
    else Tops(kept, root, k - 1) + (if IsTop(kept[k - 1], root) then [k - 1] else [])
  }

  /** The top-level list holds exactly the top nodes, each once, in path order. */
  lemma {:induction false} TopsAreTopNodes(kept: seq<Node>, root: Option<Node>, k: nat)
    requires k <= |kept|
    ensures forall j: nat :: j in Tops(kept, root, k) <==> j < k && IsTop(kept[j], root)
    ensures forall s, t :: 0 <= s < t < |Tops(kept, root, k)| ==> Tops(kept, root, k)[s] < Tops(kept, root, k)[t]
  {
    TopsMembers(kept, root, k);
    TopsIncreasing(kept, root, k);
  }

  lemma {:induction false} TopsMembers(kept: seq<Node>, root: Option<Node>, k: nat)
    requires k <= |kept|
    ensures forall j: nat :: j in Tops(kept, root, k) <==> j < k && IsTop(kept[j], root)
  {
    if k > 0 {
      TopsMembers(kept, root, k - 1);
      var prev := Tops(kept, root, k - 1);
      var last: seq<nat> := if IsTop(kept[k - 1], root) then [k - 1] else [];
      var r := Tops(kept, root, k);
      assert r == prev + last;
      forall j: nat
        ensures j in r <==> j < k && IsTop(kept[j], root)
      {
        assert j in r <==> j in prev || j in last;
      }
    }
  }

  lemma {:induction false} TopsIncreasing(kept: seq<Node>, root: Option<Node>, k: nat)
    requires k <= |kept|
    ensures forall s, t :: 0 <= s < t < |Tops(kept, root, k)| ==> Tops(kept, root, k)[s] < Tops(kept, root, k)[t]
  {
    if k > 0 {
      TopsIncreasing(kept, root, k - 1);
      var prev := Tops(kept, root, k - 1);
      var last: seq<nat> := if IsTop(kept[k - 1], root) then [k - 1] else [];
      var r := Tops(kept, root, k);
      assert r == prev + last;
      forall s, t | 0 <= s < t < |r|
        ensures r[s] < r[t]
      {
        if t < |prev| {
          assert r[s] == prev[s] && r[t] == prev[t];
        } else {
          assert r[s] == prev[s] && r[t] == k - 1;
        }
      }
    }
  }

  /** The positions among the first `k` appended to the children of entry `i`, in order. */
  function ChildIdx(kept: seq<Node>, root: Option<Node>, i: nat, k: nat): (r: seq<nat>)
    requires WellFormedPaths(kept) && k <= |kept|
    ensures forall t :: 0 <= t < |r| ==> i < r[t] < k
  {
    if k == 0 then []
    else ChildIdx(kept, root, i, k - 1) + (if Parent(kept, root, k - 1) == Some(i) then [k - 1] else [])
  }

  /** The children of an entry are exactly the nodes placed under it, each once, in path order. */
  lemma {:induction false} ChildIdxAreChildren(kept: seq<Node>, root: Option<Node>, i: nat, k: nat)
    requires WellFormedPaths(kept) && k <= |kept|
    ensures forall j: nat :: j in ChildIdx(kept, root, i, k) <==> j < k && Parent(kept, root, j) == Some(i)
    ensures forall s, t :: 0 <= s < t < |ChildIdx(kept, root, i, k)| ==>
      ChildIdx(kept, root, i, k)[s] < ChildIdx(kept, root, i, k)[t]
  {
    ChildIdxMembers(kept, root, i, k);
    ChildIdxIncreasing(kept, root, i, k);
  }

  lemma {:induction false} ChildIdxMembers(kept: seq<Node>, root: Option<Node>, i: nat, k: nat)
    requires WellFormedPaths(kept) && k <= |kept|
    ensures forall j: nat :: j in ChildIdx(kept, root, i, k) <==> j < k && Parent(kept, root, j) == Some(i)
  {
    if k > 0 {
      ChildIdxMembers(kept, root, i, k - 1);
      var prev := ChildIdx(kept, root, i, k - 1);
      var last: seq<nat> := if Parent(kept, root, k - 1) == Some(i) then [k - 1] else [];
      var r := ChildIdx(kept, root, i, k);
      assert r == prev + last;
      forall j: nat
        ensures j in r <==> j < k && Parent(kept, root, j) == Some(i)
      {
        assert j in r <==> j in prev || j in last;
        if j < k - 1 {
          assert j !in last;
        } else if j == k - 1 {
          assert j !in prev;
        } else {
          assert j !in prev && j !in last;
        }
      }
    }
  }

  lemma {:induction false} ChildIdxIncreasing(kept: seq<Node>, root: Option<Node>, i: nat, k: nat)
    requires WellFormedPaths(kept) && k <= |kept|
    ensures forall s, t :: 0 <= s < t < |ChildIdx(kept, root, i, k)| ==>
      ChildIdx(kept, root, i, k)[s] < ChildIdx(kept, root, i, k)[t]
  {
    if k > 0 {
      ChildIdxIncreasing(kept, root, i, k - 1);
      var prev := ChildIdx(kept, root, i, k - 1);
      var last: seq<nat> := if Parent(kept, root, k - 1) == Some(i) then [k - 1] else [];
      var r := ChildIdx(kept, root, i, k);
      assert r == prev + last;
      forall s, t | 0 <= s < t < |r|
        ensures r[s] < r[t]
      {
        if t < |prev| {
          assert r[s] == prev[s] && r[t] == prev[t];
        } else {
          assert r[s] == prev[s] && r[t] == k - 1;
        }
      }
    }
  }

  /** The entry of the node at position `i`, with its children nested. */
  function Subtree(kept: seq<Node>, root: Option<Node>, i: nat): TreeEntry
    requires WellFormedPaths(kept) && i < |kept|
    decreases |kept| - i
  {
    var ch := ChildIdx(kept, root, i, |kept|);
    TreeEntry(DataOf(kept[i]),
      if ch == [] then None
      else Some(seq(|ch|, t requires 0 <= t < |ch| => Subtree(kept, root, ch[t]))))
  }

  /** The returned `tree`: the top-level entries in path order. */
  function Forest(kept: seq<Node>, root: Option<Node>): seq<TreeEntry>
    requires WellFormedPaths(kept)
  {
    var ts := Tops(kept, root, |kept|);
    seq(|ts|, t requires 0 <= t < |ts| => Subtree(kept, root, ts[t]))
  }

  /** What `dump_tree` returns or raises. */
  function DumpTreeSpec(store: seq<Node>, root: Option<Node>, upTo: Option<string>, kindDepths: map<string, nat>)
    : (r: Result<seq<TreeEntry>, DumpError>)
    requires WellFormedPaths(store)
    ensures (r.Failure? && r.error.InvalidNodeKind?) <==> Given(upTo) && upTo.value !in kindDepths
    ensures r.Failure? && r.error.InvalidNodeKind? ==> r.error.upTo == upTo.value
  {
    if Given(upTo) && upTo.value !in kindDepths then Failure(InvalidNodeKind(upTo.value))
    else
      var kept := Kept(store, root, MaxDepth(upTo, kindDepths));
      match FirstOrphanFrom(kept, root, 0)
      case Some(j) => Failure(MissingParent(ParentPath(kept[j].path)))
      case None => Success(Forest(kept, root))
  }

  // ---------------------------------------------------------------------------
  // The single pass

  /** A shared entry: its fields and the positions of the entries appended to its children. */
  datatype ArenaEntry = ArenaEntry(data: NodeData, children: seq<nat>)

  predicate ArenaOrdered(entries: seq<ArenaEntry>)
  {
    forall i, t :: 0 <= i < |entries| && 0 <= t < |entries[i].children| ==>
      i < entries[i].children[t] < |entries|
  }

  /** The shared entries after the first `k` nodes: each with the children appended so far. */
  function ArenaAfter(kept: seq<Node>, root: Option<Node>, k: nat): (entries: seq<ArenaEntry>)
    requires WellFormedPaths(kept) && k <= |kept|
    ensures |entries| == k
  {
    seq(k, i requires 0 <= i < k => ArenaEntry(DataOf(kept[i]), ChildIdx(kept, root, i, k)))
  }

  /** A node has no children among the nodes up to itself. */
  lemma {:induction false} NoEarlierChildren(kept: seq<Node>, root: Option<Node>, i: nat, k: nat)
    requires WellFormedPaths(kept) && k <= |kept| && k <= i + 1
    ensures ChildIdx(kept, root, i, k) == []
  {
    if k > 0 {
      NoEarlierChildren(kept, root, i, k - 1);
    }
  }

  /** The arena after placing node `k` when it has no parent entry (a top node). */
  lemma ArenaStepTop(kept: seq<Node>, root: Option<Node>, k: nat)
    requires WellFormedPaths(kept) && k < |kept| && Parent(kept, root, k).None?
    ensures ArenaAfter(kept, root, k + 1) == ArenaAfter(kept, root, k) + [ArenaEntry(DataOf(kept[k]), [])]
  {
    var before, after := ArenaAfter(kept, root, k), ArenaAfter(kept, root, k + 1);
    var entry := ArenaEntry(DataOf(kept[k]), []);
    NoEarlierChildren(kept, root, k, k + 1);
    forall i | 0 <= i < k + 1
      ensures after[i] == (before + [entry])[i]
    {
      if i < k {
        assert ChildIdx(kept, root, i, k + 1) == ChildIdx(kept, root, i, k) + [];
        assert after[i] == ArenaEntry(DataOf(kept[i]), ChildIdx(kept, root, i, k + 1));
        assert before[i] == ArenaEntry(DataOf(kept[i]), ChildIdx(kept, root, i, k));
      } else {
        assert after[k] == ArenaEntry(DataOf(kept[k]), ChildIdx(kept, root, k, k + 1));
      }
    }
  }

  /** The arena after placing node `k` under the entry at `p`: `k` joins that entry's children. */
  lemma ArenaStepChild(kept: seq<Node>, root: Option<Node>, k: nat, p: nat)
    requires WellFormedPaths(kept) && k < |kept| && Parent(kept, root, k) == Some(p)
    ensures var before := ArenaAfter(kept, root, k);
      ArenaAfter(kept, root, k + 1) ==
        before[p := before[p].(children := before[p].children + [k])] + [ArenaEntry(DataOf(kept[k]), [])]
  {
    var before, after := ArenaAfter(kept, root, k), ArenaAfter(kept, root, k + 1);
    var updated := before[p := before[p].(children := before[p].children + [k])];
    assert after[p] == updated[p] by {
      assert ChildIdx(kept, root, p, k + 1) == ChildIdx(kept, root, p, k) + [k];
    }
    forall i | 0 <= i < k && i != p ensures after[i] == updated[i] {
      assert ChildIdx(kept, root, i, k + 1) == ChildIdx(kept, root, i, k);
    }
    NoEarlierChildren(kept, root, k, k + 1);
  }

  /** The nested value of a shared entry. */
  function Nest(entries: seq<ArenaEntry>, i: nat): TreeEntry
    requires ArenaOrdered(entries) && i < |entries|
    decreases |entries| - i
  {
    var ch := entries[i].children;
    TreeEntry(entries[i].data,
      if ch == [] then None
      else Some(seq(|ch|, t requires 0 <= t < |ch| => Nest(entries, ch[t]))))
  }

  /** The index maps each path to the last node so far with that path. */
  ghost predicate IndexHolds(kept: seq<Node>, k: nat, index: map<string, nat>)
    requires k <= |kept|
  {
    forall p :: LastIdx(kept, p, k) == (if p in index then Some(index[p]) else None)
  }

  /**
   * One iteration of the loop of `Node.dump_tree`: put node `k` in the
   * top-level list or in the children of the entry the index holds for its
   * parent path (`KeyError` when there is none), then record it in the index.
   */
  method PlaceNode(kept: seq<Node>, root: Option<Node>, k: nat,
                   entries: seq<ArenaEntry>, tree: seq<nat>, index: map<string, nat>)
    returns (r: Result<(seq<ArenaEntry>, seq<nat>, map<string, nat>), DumpError>)
    requires WellFormedPaths(kept) && k < |kept|
    requires entries == ArenaAfter(kept, root, k) && tree == Tops(kept, root, k) && IndexHolds(kept, k, index)
    ensures r.Failure? <==> Orphan(kept, root, k)
    ensures r.Failure? ==> r.error == MissingParent(ParentPath(kept[k].path))
    ensures r.Success? ==>
      && r.value.0 == ArenaAfter(kept, root, k + 1)
      && r.value.1 == Tops(kept, root, k + 1)
      && IndexHolds(kept, k + 1, r.value.2)
  {
    var node := kept[k];
    assert node in kept;
    var path := node.path;
    var depth := Depth(path);
    var entries', tree' := entries, tree;
    if (root.None? && depth == 1) || (root.Some? && |path| == |root.value.path|) {
      ArenaStepTop(kept, root, k);
      tree' := tree + [k];
    } else {
      var parentPath := ParentPath(path);
      assert LastIdx(kept, parentPath, k) == (if parentPath in index then Some(index[parentPath]) else None);
      if parentPath !in index {
        return Failure(MissingParent(parentPath));
      }
      var p := index[parentPath];
      ArenaStepChild(kept, root, k, p);
      entries' := entries[p := entries[p].(children := entries[p].children + [k])];
    }
    entries' := entries' + [ArenaEntry(DataOf(node), [])];
    var index' := index[path := k];
    assert IndexHolds(kept, k + 1, index') by {
      forall q ensures LastIdx(kept, q, k + 1) == (if q in index' then Some(index'[q]) else None) {
        assert LastIdx(kept, q, k) == (if q in index then Some(index[q]) else None);
      }
    }
    return Success((entries', tree', index'));
  }

  /**
   * The loop of `Node.dump_tree`: place the nodes in path order. Fails with
   * the parent path of the first node whose parent path the index does not
   * hold.
   */
  method PlaceNodes(kept: seq<Node>, root: Option<Node>) returns (r: Result<(seq<ArenaEntry>, seq<nat>), DumpError>)
    requires WellFormedPaths(kept)
    ensures match FirstOrphanFrom(kept, root, 0)
      case Some(j) => r == Failure(MissingParent(ParentPath(kept[j].path)))
      case None => r == Success((ArenaAfter(kept, root, |kept|), Tops(kept, root, |kept|)))
  {
    var entries: seq<ArenaEntry> := [];
    var tree: seq<nat> := [];
    var index: map<string, nat> := map[];
    for k := 0 to |kept|
      invariant entries == ArenaAfter(kept, root, k)
      invariant tree == Tops(kept, root, k)
      invariant IndexHolds(kept, k, index)
      invariant FirstOrphanFrom(kept, root, 0) == FirstOrphanFrom(kept, root, k)
    {
      var placed := PlaceNode(kept, root, k, entries, tree, index);
      if placed.Failure? {
        return Failure(placed.error);
      }
      entries, tree, index := placed.value.0, placed.value.1, placed.value.2;
    }
    return Success((entries, tree));
  }

  /** `Node.dump_tree(root, up_to)` over the node table `store`. */
  method DumpTree(store: seq<Node>, root: Option<Node>, upTo: Option<string>, kindDepths: map<string, nat>)
    returns (r: Result<seq<TreeEntry>, DumpError>)
    requires WellFormedPaths(store) && PathOrdered(store)
    ensures r == DumpTreeSpec(store, root, upTo, kindDepths)
  {
    if Given(upTo) && upTo.value !in kindDepths {
      return Failure(InvalidNodeKind(upTo.value));
    }
    var maxDepth: Option<nat> := None;
    if Given(upTo) {
      maxDepth := Some(kindDepths[upTo.value]);
    }
    assert maxDepth == MaxDepth(upTo, kindDepths);
    var kept := Kept(store, root, maxDepth);
    var placed := PlaceNodes(kept, root);
    if placed.Failure? {
      return Failure(placed.error);
    }
    var (entries, tree) := placed.value;
    ArenaMatchesSpec(entries, kept, root);
    var forest := seq(|tree|, t requires 0 <= t < |tree| => Nest(entries, tree[t]));
    assert forest == Forest(kept, root);
    r := Success(forest);
  }

  /** The finished arena nests into exactly the specified forest. */
  lemma ArenaMatchesSpec(entries: seq<ArenaEntry>, kept: seq<Node>, root: Option<Node>)
    requires WellFormedPaths(kept) && entries == ArenaAfter(kept, root, |kept|)
    ensures ArenaOrdered(entries)
    ensures forall i :: 0 <= i < |kept| ==> Nest(entries, i) == Subtree(kept, root, i)
  {
    forall i, t | 0 <= i < |entries| && 0 <= t < |entries[i].children|
      ensures i < entries[i].children[t] < |entries|
    {
      assert entries[i].children == ChildIdx(kept, root, i, |kept|);
    }
    forall i | 0 <= i < |kept| ensures Nest(entries, i) == Subtree(kept, root, i) {
      NestIsSubtree(entries, kept, root, i);
    }
  }

  lemma {:induction false} NestIsSubtree(entries: seq<ArenaEntry>, kept: seq<Node>, root: Option<Node>, i: nat)
    requires WellFormedPaths(kept) && entries == ArenaAfter(kept, root, |kept|) && i < |kept|
    requires ArenaOrdered(entries)
    ensures Nest(entries, i) == Subtree(kept, root, i)
    decreases |kept| - i
  {
    var ch := ChildIdx(kept, root, i, |kept|);
    assert entries[i].children == ch;
    forall t | 0 <= t < |ch| ensures Nest(entries, ch[t]) == Subtree(kept, root, ch[t]) {
      NestIsSubtree(entries, kept, root, ch[t]);
    }
    if ch != [] {
      assert seq(|ch|, t requires 0 <= t < |ch| => Nest(entries, ch[t]))
          == seq(|ch|, t requires 0 <= t < |ch| => Subtree(kept, root, ch[t]));
    }
  }

  // ---------------------------------------------------------------------------
  // What the forest promises

  /**
   * Every kept node is placed exactly once: in the top-level list if and
   * only if it is a top node, and otherwise in the children of exactly one
   * entry, an earlier one whose path is the node's path minus its last step.
   * Every list is strictly increasing in position, so no node is listed
   * twice in one list, and the lists follow path order.
   */
  lemma PlacedExactlyOnce(kept: seq<Node>, root: Option<Node>, j: nat)
    requires WellFormedPaths(kept) && FirstOrphanFrom(kept, root, 0).None? && j < |kept|
    ensures j in Tops(kept, root, |kept|) <==> IsTop(kept[j], root)
    ensures !IsTop(kept[j], root) ==>
      && Parent(kept, root, j).Some?
      && kept[Parent(kept, root, j).value].path == ParentPath(kept[j].path)
    ensures forall i: nat :: j in ChildIdx(kept, root, i, |kept|) <==> Parent(kept, root, j) == Some(i)
  {
    FirstOrphanIsFirst(kept, root, 0);
    assert !Orphan(kept, root, j);
    TopsAreTopNodes(kept, root, |kept|);
    forall i: nat ensures j in ChildIdx(kept, root, i, |kept|) <==> Parent(kept, root, j) == Some(i) {
      ChildIdxAreChildren(kept, root, i, |kept|);
    }
  }

  /** An entry has a `children` key exactly when some kept node was appended to it. */
  lemma ChildrenKeyOnlyWhenAppended(kept: seq<Node>, root: Option<Node>, i: nat)
    requires WellFormedPaths(kept) && i < |kept|
    ensures Subtree(kept, root, i).children.None? <==>
      forall j: nat :: i < j < |kept| ==> Parent(kept, root, j) != Some(i)
  {
    var ch := ChildIdx(kept, root, i, |kept|);
    ChildIdxAreChildren(kept, root, i, |kept|);
    assert Subtree(kept, root, i).children.None? <==> ch == [];
    if ch != [] {
      assert ch[0] in ch;
    }
  }

  /** A path strictly below the root's that is cut by one step still starts with the root's path. */
  lemma ParentStaysUnderRoot(path: string, rootPath: string)
    requires WellFormedPath(path) && WellFormedPath(rootPath)
    requires StartsWith(path, rootPath) && |path| != |rootPath|
    ensures Depth(path) > 1
    ensures StartsWith(ParentPath(path), rootPath)
  {
    var pp := ParentPath(path);
    assert |pp| >= |rootPath|;
    assert pp[..|rootPath|] == path[..|rootPath|];
  }

  lemma ParentPathKept(store: seq<Node>, root: Option<Node>, maxDepth: Option<nat>, n: Node)
    requires WellFormedStore(store) && (root.Some? ==> root.value in store)
    requires n in Kept(store, root, maxDepth) && !IsTop(n, root)
    ensures Depth(n.path) > 1
    ensures exists m :: m in Kept(store, root, maxDepth) && m.path == ParentPath(n.path)
  {
    assert n in store && WellFormedPath(n.path);
    if root.Some? {
      ParentStaysUnderRoot(n.path, root.value.path);
    }
    var m :| m in store && m.path == ParentPath(n.path);
    assert KeepNode(m, root, maxDepth);
  }

  /**
   * In a well-formed store, with the root (when given) one of its nodes,
   * every kept non-top node finds its parent entry: the pass never raises
   * `KeyError`.
   */
  lemma NoMissingParent(store: seq<Node>, root: Option<Node>, maxDepth: Option<nat>)
    requires WellFormedStore(store) && (root.Some? ==> root.value in store)
    ensures FirstOrphanFrom(Kept(store, root, maxDepth), root, 0).None?
  {
    var kept := Kept(store, root, maxDepth);
    forall j | 0 <= j < |kept| ensures !Orphan(kept, root, j) {
      KeptNodeNotOrphan(store, root, maxDepth, j);
    }
    FirstOrphanIsFirst(kept, root, 0);
  }

  /** A kept non-top node's parent is kept and sorts before it, so the index already holds it. */
  lemma KeptNodeNotOrphan(store: seq<Node>, root: Option<Node>, maxDepth: Option<nat>, j: nat)
    requires WellFormedStore(store) && (root.Some? ==> root.value in store)
    requires j < |Kept(store, root, maxDepth)|
    ensures !Orphan(Kept(store, root, maxDepth), root, j)
  {
    var kept := Kept(store, root, maxDepth);
    if !IsTop(kept[j], root) {
      assert kept[j] in kept;
      ParentPathKept(store, root, maxDepth, kept[j]);
      var pp := ParentPath(kept[j].path);
      var m :| m in kept && m.path == pp;
      var i :| 0 <= i < |kept| && kept[i] == m;
      StrictPrefixLexLess(pp, kept[j].path);
      if j == i {
        LexLessIrreflexive(pp);
      } else if j < i {
        LexLessAsymmetric(kept[j].path, kept[i].path);
      }
      LastIdxIsLast(kept, pp, j);
    }
  }

  /** So `dump_tree` fails only on an unknown `up_to`. */
  lemma DumpTreeFailsOnlyOnUnknownKind(store: seq<Node>, root: Option<Node>, upTo: Option<string>, kindDepths: map<string, nat>)
    requires WellFormedStore(store) && (root.Some? ==> root.value in store)
    ensures DumpTreeSpec(store, root, upTo, kindDepths).Failure? <==> Given(upTo) && upTo.value !in kindDepths
  {
    if !(Given(upTo) && upTo.value !in kindDepths) {
      NoMissingParent(store, root, MaxDepth(upTo, kindDepths));
    }
  }

  /**
   * The top-level entries are the depth-1 nodes when no root is given, and
   * the root itself when one is.
   */
  lemma TopsAreRootOrFirstLevel(store: seq<Node>, root: Option<Node>, maxDepth: Option<nat>)
    requires WellFormedStore(store) && (root.Some? ==> root.value in store)
    ensures var kept := Kept(store, root, maxDepth);
      forall j :: 0 <= j < |kept| ==>
        (IsTop(kept[j], root) <==> (root.None? && Depth(kept[j].path) == 1) || (root.Some? && kept[j] == root.value))
  {
    var kept := Kept(store, root, maxDepth);
    forall j | 0 <= j < |kept| && root.Some? && IsTop(kept[j], root)
      ensures kept[j] == root.value
    {
      assert kept[j] in kept;
      assert kept[j].path == root.value.path by {
        assert StartsWith(kept[j].path, root.value.path);
      }
      SamePathSameNode(store, kept[j], root.value);
    }
  }
}
