/**
 * The pieces of the atlas schema that compute rather than wire: the
 * text-part reference filter, passage initialization on the request context,
 * and the crushing of a dumped sense tree into an id-only tree.
 */
module Schema {
  import opened Common
  import opened Strings
  import opened NodeTree
  import opened Alignment

  // ---------------------------------------------------------------------------
  // `TextPartFilterSet.reference_filter`

  /** Unpacking `ref.split("-")` into `start, end` raises when the count is not two. */
  datatype FilterError = ValueError

  /**
   * The query `reference_filter` hands on: the nodes it keeps and the refs of
   * the `ref__in` predicate.
   */
  datatype RefQuery = RefQuery(candidates: seq<Node>, refs: seq<string>)

  /**
   * The query for a range from `start` to `end` (`end` empty for none): nodes
   * under the version URN at depth "dotted segments of `start`, plus one".
   */
  function RangeQuery(nodes: seq<Node>, versionUrn: string, start: string, end: string): (q: RefQuery)
    ensures q.refs == if end == [] then [start] else [start, end]
    ensures forall n :: n in q.candidates <==>
      n in nodes && StartsWith(n.urn, versionUrn) && Depth(n.path) == Count('.', start) + 2
  {
    var refs := if end != [] then [start, end] else [start];
    var depth := |SplitOn(start, '.')| + 1;
    RefQuery(Filter(nodes, (n: Node) => StartsWith(n.urn, versionUrn) && Depth(n.path) == depth), refs)
  }

  /** `reference_filter` as written: `start, end = ref.split("-")`. */
  function ReferenceFilterAsWritten(nodes: seq<Node>, versionUrn: string, ref: string): (r: Result<RefQuery, FilterError>)
    ensures r.Success? <==> Count('-', ref) == 1
  {
    var parts := SplitOn(ref, '-');
    if |parts| != 2 then Failure(ValueError)
    else Success(RangeQuery(nodes, versionUrn, parts[0], parts[1]))
  }

  /**
   * A passage reference of a single text part has no `-`, so the filter as
   * written raises on every such reference, for example `1.2`.
   */
  lemma AsWrittenRejectsSingleParts(nodes: seq<Node>, versionUrn: string, textParts: seq<Node>)
    requires textParts != [] && textParts[0].ref == textParts[|textParts| - 1].ref
    requires '-' !in textParts[0].ref
    ensures var reference := GetPassageReference(versionUrn, textParts).value;
      ReferenceFilterAsWritten(nodes, versionUrn, reference[|versionUrn|..]) == Failure(ValueError)
  {
    PassageReferenceSplits(versionUrn, textParts);
  }

  lemma AsWrittenRejectsSingleRef(nodes: seq<Node>)
    ensures ReferenceFilterAsWritten(nodes, "urn:cts:greekLit:tlg0012.tlg001.perseus-grc2:", "1.2") == Failure(ValueError)
  {
    CountAbsent('-', "1.2");
  }

  /**
   * `reference_filter` with a single ref accepted: a ref without `-` is the
   * range from it to nothing, as the `if end:` branch of the source intends.
   */
  function ReferenceFilter(nodes: seq<Node>, versionUrn: string, ref: string): (r: Result<RefQuery, FilterError>)
    ensures r.Success? <==> Count('-', ref) <= 1
  {
    var parts := SplitOn(ref, '-');
    if |parts| == 1 then Success(RangeQuery(nodes, versionUrn, parts[0], []))
    else if |parts| == 2 then Success(RangeQuery(nodes, versionUrn, parts[0], parts[1]))
    else Failure(ValueError)
  }

  /** The two filters agree wherever the one as written does not raise. */
  lemma ReferenceFilterExtendsAsWritten(nodes: seq<Node>, versionUrn: string, ref: string)
    ensures ReferenceFilterAsWritten(nodes, versionUrn, ref).Success? ==>
      ReferenceFilter(nodes, versionUrn, ref) == ReferenceFilterAsWritten(nodes, versionUrn, ref)
  {
  }

  /**
   * Every passage reference built from stored text parts (refs without `-`,
   * non-empty) goes through the filter, and the filter asks for exactly its
   * first and last ref.
   */
  lemma ReferenceFilterAcceptsPassageReferences(nodes: seq<Node>, versionUrn: string, textParts: seq<Node>)
    requires textParts != []
    requires '-' !in textParts[0].ref && '-' !in textParts[|textParts| - 1].ref
    requires textParts[|textParts| - 1].ref != []
    ensures var first := textParts[0].ref;
      var last := textParts[|textParts| - 1].ref;
      var reference := GetPassageReference(versionUrn, textParts).value;
      var r := ReferenceFilter(nodes, versionUrn, reference[|versionUrn|..]);
      && r.Success?
      && r.value.refs == (if first == last then [first] else [first, last])
  {
    PassageReferenceSplits(versionUrn, textParts);
  }

  // ---------------------------------------------------------------------------
  // `initialize_passage`

  /** What the healing step returns for the model: the passage's own reference. */
  datatype Passage = Passage(reference: string)

  /** The GraphQL request context (`info.context`) as far as passages go. */
  class GqlContext {
    var passage: Option<Passage>
    var healedPassageReference: Option<string>

    constructor ()
      ensures passage == None && healedPassageReference == None
    {
      passage := None;
      healedPassageReference := None;
    }
  }

  /**
   * `initialize_passage`: heal the reference, store the passage on the
   * context, record the healed reference only when healing happened, and
   * return the passage's reference. `heal` stands for `passage_heal`.
   */
  method InitializePassage(context: GqlContext, reference: string, heal: string -> (Passage, bool))
    returns (r: string)
    modifies context
    ensures context.passage == Some(heal(reference).0)
    ensures r == heal(reference).0.reference
    ensures heal(reference).1 ==> context.healedPassageReference == Some(r)
    ensures !heal(reference).1 ==> context.healedPassageReference == old(context.healedPassageReference)
  {
    var (passage, healed) := heal(reference);
    context.passage := Some(passage);
    if healed {
      context.healedPassageReference := Some(passage.reference);
    }
    r := passage.reference;
  }

  // ---------------------------------------------------------------------------
  // `_crush_sense`

  /** A missing `data` or `urn` key. */
  datatype CrushError = KeyError

  /** The values of a dumped sense's field dictionary. */
  datatype Scalar = Int(i: int) | Str(s: string) | Null

  /**
   * One node of a `dump_bulk` sense tree: its field dictionary, its `id`, and
   * its children (an absent `children` key is the empty list).
   */
  datatype SenseTree = SenseTree(data: Option<map<string, Scalar>>, id: Option<Scalar>, children: seq<SenseTree>)

  /** `tree["data"]["urn"]`, when both keys are there. */
  function FormerUrn(t: SenseTree): Option<Scalar>
  {
    if t.data.Some? && "urn" in t.data.value then Some(t.data.value["urn"]) else None
  }

  /**
   * `_crush_sense`: replace `id` by the URN popped from `data`, drop `data`,
   * and crush the children in order; a missing `data` or `urn` key raises.
   */
  function CrushSense(t: SenseTree): (r: Result<SenseTree, CrushError>)
    ensures FormerUrn(t).None? ==> r.Failure?
    ensures r.Success? ==> r.value.data.None? && r.value.id == FormerUrn(t) && |r.value.children| == |t.children|
  {
    match FormerUrn(t)
    case None => Failure(KeyError)
    case Some(urn) =>
      match CrushSenses(t.children)
      case Failure(e) => Failure(e)
      case Success(children) => Success(SenseTree(None, Some(urn), children))
  }

  /** The loop over `tree.get("children", [])`. */
  function CrushSenses(ts: seq<SenseTree>): (r: Result<seq<SenseTree>, CrushError>)
    ensures r.Success? ==> |r.value| == |ts|
  {
    if ts == [] then Success([])
    else
      match CrushSense(ts[0])
      case Failure(e) => Failure(e)
      case Success(first) =>
        match CrushSenses(ts[1..])
        case Failure(e) => Failure(e)
        case Success(rest) => Success([first] + rest)
  }

  /** Every node of the tree has a `data` dictionary with a `urn`. */
  predicate HasUrns(t: SenseTree)
  {
    FormerUrn(t).Some? && AllHaveUrns(t.children)
  }

  predicate AllHaveUrns(ts: seq<SenseTree>)
  {
    ts == [] || (HasUrns(ts[0]) && AllHaveUrns(ts[1..]))
  }

  /** No node of the tree has a `data` key. */
  predicate NoData(t: SenseTree)
  {
    t.data.None? && AllNoData(t.children)
  }

  predicate AllNoData(ts: seq<SenseTree>)
  {
    ts == [] || (NoData(ts[0]) && AllNoData(ts[1..]))
  }

  /** The nesting of a tree, without any of its keys. */
  datatype Shape = Shape(children: seq<Shape>)

  function ShapeOf(t: SenseTree): Shape
  {
    Shape(ShapesOf(t.children))
  }

  function ShapesOf(ts: seq<SenseTree>): seq<Shape>
  {
    if ts == [] then [] else [ShapeOf(ts[0])] + ShapesOf(ts[1..])
  }

  /** The former URNs, node by node in preorder. */
  function Urns(t: SenseTree): seq<Option<Scalar>>
  {
    [FormerUrn(t)] + AllUrns(t.children)
  }

  function AllUrns(ts: seq<SenseTree>): seq<Option<Scalar>>
  {
    if ts == [] then [] else Urns(ts[0]) + AllUrns(ts[1..])
  }

  /** The `id` values, node by node in preorder. */
  function Ids(t: SenseTree): seq<Option<Scalar>>
  {
    [t.id] + AllIds(t.children)
  }

  function AllIds(ts: seq<SenseTree>): seq<Option<Scalar>>
  {
    if ts == [] then [] else Ids(ts[0]) + AllIds(ts[1..])
  }

  /**
   * Crushing succeeds exactly when every node has a URN; the crushed tree has
   * no `data` anywhere, the same nesting and child order, and node by node
   * its `id` is the former URN.
   */
  lemma {:induction false} CrushSenseCorrect(t: SenseTree)
    ensures CrushSense(t).Success? <==> HasUrns(t)
    ensures CrushSense(t).Success? ==>
      var r := CrushSense(t).value;
      NoData(r) && ShapeOf(r) == ShapeOf(t) && Ids(r) == Urns(t)
    decreases t, 1
  {
    CrushSensesCorrect(t.children);
  }

  lemma {:induction false} CrushSensesCorrect(ts: seq<SenseTree>)
    ensures CrushSenses(ts).Success? <==> AllHaveUrns(ts)
    ensures CrushSenses(ts).Success? ==>
      var rs := CrushSenses(ts).value;
      AllNoData(rs) && ShapesOf(rs) == ShapesOf(ts) && AllIds(rs) == AllUrns(ts)
    decreases ts, 0
  {
    if ts != [] {
      CrushSenseCorrect(ts[0]);
      CrushSensesCorrect(ts[1..]);
      if CrushSenses(ts).Success? {
        var rs := CrushSenses(ts).value;
        assert rs == [CrushSense(ts[0]).value] + CrushSenses(ts[1..]).value;
        assert rs[0] == CrushSense(ts[0]).value && rs[1..] == CrushSenses(ts[1..]).value;
      }
    }
  }
}
