/**
 * Passage references of a text alignment (`TextAlignmentMetadata` in the
 * atlas schema): for every aligned version, the passage reference spanned by
 * the version's aligned tokens and the idx range of those tokens. The anchor
 * version comes first, then the other versions of the alignment in their
 * stored order.
 */
module Alignment {
  import opened Common
  import opened Strings
  import opened NodeTree
  import opened Tokens

  datatype AlignmentError =
    | IndexError                      // `[0]` or `[-1]` of an empty list
    | DoesNotExist(urn: string)       // `TextAlignment.objects.get` finds nothing
    | MultipleObjectsReturned(urn: string)

  /** The dictionary `generate_passage_reference` returns. */
  datatype PassageReference = PassageReference(reference: string, startIdx: int, endIdx: int)

  /** `get_passage_reference`: the version URN, the first ref and, when it differs, `-` and the last ref. */
  function GetPassageReference(versionUrn: string, textParts: seq<Node>): (r: Result<string, AlignmentError>)
    ensures r.Success? <==> textParts != []
    ensures r.Failure? ==> r.error == IndexError
  {
    if textParts == [] then Failure(IndexError)
    else
      var first := textParts[0].ref;
      var last := textParts[|textParts| - 1].ref;
      var refs := if last in [first] then [first] else [first, last];
      Success(versionUrn + Join(refs, "-"))
  }

  /**
   * A passage reference is the version URN followed by a ref part that splits
   * at `-` back into the first ref alone, or the first and the last ref when
   * they differ (for refs without `-`).
   */
  lemma PassageReferenceSplits(versionUrn: string, textParts: seq<Node>)
    requires textParts != []
    requires '-' !in textParts[0].ref && '-' !in textParts[|textParts| - 1].ref
    ensures var first := textParts[0].ref;
      var last := textParts[|textParts| - 1].ref;
      var reference := GetPassageReference(versionUrn, textParts).value;
      && StartsWith(reference, versionUrn)
      && SplitOn(reference[|versionUrn|..], '-') == (if first == last then [first] else [first, last])
  {
    var first := textParts[0].ref;
    var last := textParts[|textParts| - 1].ref;
    var refs := if first == last then [first] else [first, last];
    var reference := GetPassageReference(versionUrn, textParts).value;
    assert reference == versionUrn + Join(refs, "-");
    assert reference[|versionUrn|..] == Join(refs, "-");
    SplitJoin(refs, '-');
  }

  // ---------------------------------------------------------------------------
  // `order_by("idx")`

  predicate SortedByIdx(ts: seq<Token>)
  {
    forall i, j :: 0 <= i < j < |ts| ==> ts[i].idx <= ts[j].idx
  }

  function InsertByIdx(t: Token, ts: seq<Token>): (r: seq<Token>)
    ensures multiset(r) == multiset(ts) + multiset{t}
  {
    if ts == [] then [t]
    else if t.idx <= ts[0].idx then [t] + ts
    else
      assert ts == [ts[0]] + ts[1..];
      [ts[0]] + InsertByIdx(t, ts[1..])
  }

  lemma {:induction false} InsertByIdxSorted(t: Token, ts: seq<Token>)
    requires SortedByIdx(ts)
    ensures SortedByIdx(InsertByIdx(t, ts))
  {
    if ts != [] && t.idx > ts[0].idx {
      var rest := InsertByIdx(t, ts[1..]);
      InsertByIdxSorted(t, ts[1..]);
      forall k | 0 <= k < |rest|
        ensures ts[0].idx <= rest[k].idx
      {
        assert rest[k] in multiset(rest);
        if rest[k] != t {
          assert rest[k] in multiset(ts[1..]);
        }
      }
      assert InsertByIdx(t, ts) == [ts[0]] + rest;
    }
  }

  /** The tokens in ascending idx order. */
  function SortByIdx(ts: seq<Token>): (r: seq<Token>)
    ensures SortedByIdx(r)
    ensures multiset(r) == multiset(ts)
  {
    if ts == [] then []
    else
      assert ts == [ts[0]] + ts[1..];
      InsertByIdxSorted(ts[0], SortByIdx(ts[1..]));
      InsertByIdx(ts[0], SortByIdx(ts[1..]))
  }

  // ---------------------------------------------------------------------------
  // `generate_passage_reference`

  /** `text_part__urn__startswith=version_urn` */
  predicate OfVersion(t: Token, versionUrn: string)
  {
    StartsWith(t.textPart.urn, versionUrn)
  }

  /** `tokens_list`: the version's tokens in idx order. */
  function TokenList(tokens: seq<Token>, versionUrn: string): (ts: seq<Token>)
    ensures SortedByIdx(ts)
    ensures |ts| <= |tokens|
  {
    var kept := Filter(tokens, (t: Token) => OfVersion(t, versionUrn));
    var sorted := SortByIdx(kept);
    assert |sorted| == |multiset(sorted)| == |multiset(kept)| == |kept|;
    sorted
  }

  /** `TextPart.objects.filter(tokens__in=...).distinct()`: the stored nodes that own one of the tokens, in path order. */
  function PartsWithTokens(nodes: seq<Node>, ts: seq<Token>): (parts: seq<Node>)
    ensures |parts| <= |nodes|
    ensures forall n :: n in parts <==> n in nodes && exists t <- ts :: t.textPart == n
  {
    Filter(nodes, (n: Node) => exists t <- ts :: t.textPart == n)
  }

  lemma TokenListMembers(tokens: seq<Token>, versionUrn: string)
    ensures forall t :: t in TokenList(tokens, versionUrn) <==> t in tokens && OfVersion(t, versionUrn)
  {
    var kept := Filter(tokens, (t: Token) => OfVersion(t, versionUrn));
    var sorted := SortByIdx(kept);
    assert sorted == TokenList(tokens, versionUrn);
    assert multiset(sorted) == multiset(kept);
    forall t
      ensures t in sorted <==> t in kept
    {
      assert t in sorted <==> t in multiset(sorted);
      assert t in kept <==> t in multiset(kept);
    }
  }

  /** `generate_passage_reference` */
  function GeneratePassageReference(versionUrn: string, nodes: seq<Node>, tokens: seq<Token>): (r: Result<PassageReference, AlignmentError>)
    ensures r.Failure? ==> r.error == IndexError
  {
    var ts := TokenList(tokens, versionUrn);
    var parts := PartsWithTokens(nodes, ts);
    // `get_passage_reference` indexes the text parts, then `tokens_list[0]` the tokens.
    if parts == [] || ts == [] then Failure(IndexError)
    else Success(PassageReference(GetPassageReference(versionUrn, parts).value, ts[0].idx, ts[|ts| - 1].idx))
  }

  /**
   * A generated reference's idx range runs from the least to the greatest idx
   * among the version's tokens, both of which occur.
   */
  lemma GeneratedRange(versionUrn: string, nodes: seq<Node>, tokens: seq<Token>)
    requires GeneratePassageReference(versionUrn, nodes, tokens).Success?
    ensures var p := GeneratePassageReference(versionUrn, nodes, tokens).value;
      && p.startIdx <= p.endIdx
      && (exists t <- tokens :: OfVersion(t, versionUrn) && t.idx == p.startIdx)
      && (exists t <- tokens :: OfVersion(t, versionUrn) && t.idx == p.endIdx)
      && forall t <- tokens :: OfVersion(t, versionUrn) ==> p.startIdx <= t.idx <= p.endIdx
  {
    var ts := TokenList(tokens, versionUrn);
    GeneratedFromTokenList(versionUrn, nodes, tokens);
    TokenListMembers(tokens, versionUrn);
    SortedEnds(ts);
    assert ts[0] in ts && ts[|ts| - 1] in ts;
  }

  /** A generated reference takes its idx range from the ends of the token list. */
  lemma GeneratedFromTokenList(versionUrn: string, nodes: seq<Node>, tokens: seq<Token>)
    requires GeneratePassageReference(versionUrn, nodes, tokens).Success?
    ensures var ts := TokenList(tokens, versionUrn);
      var p := GeneratePassageReference(versionUrn, nodes, tokens).value;
      ts != [] && p.startIdx == ts[0].idx && p.endIdx == ts[|ts| - 1].idx
  {
  }

  /** In idx order the first token has the least idx and the last the greatest. */
  lemma SortedEnds(ts: seq<Token>)
    requires SortedByIdx(ts) && ts != []
    ensures forall k :: 0 <= k < |ts| ==> ts[0].idx <= ts[k].idx <= ts[|ts| - 1].idx
    ensures forall t <- ts :: ts[0].idx <= t.idx <= ts[|ts| - 1].idx
  {
    forall t | t in ts
      ensures ts[0].idx <= t.idx <= ts[|ts| - 1].idx
    {
      var k :| 0 <= k < |ts| && ts[k] == t;
    }
  }

  /**
   * The reference is built from the stored text parts that own a token of
   * the version, in path order.
   */
  lemma PartsWithVersionTokens(versionUrn: string, nodes: seq<Node>, tokens: seq<Token>)
    ensures forall n :: n in PartsWithTokens(nodes, TokenList(tokens, versionUrn)) <==>
      n in nodes && exists t <- tokens :: OfVersion(t, versionUrn) && t.textPart == n
    ensures PathOrdered(nodes) ==> PathOrdered(PartsWithTokens(nodes, TokenList(tokens, versionUrn)))
  {
    var ts := TokenList(tokens, versionUrn);
    TokenListMembers(tokens, versionUrn);
    if PathOrdered(nodes) {
      FilterPairwise(nodes, (n: Node) => exists t <- ts :: t.textPart == n, (a: Node, b: Node) => LexLess(a.path, b.path));
    }
  }

  /**
   * When every aligned token's text part is stored, generating a reference
   * fails exactly when the version has no aligned token.
   */
  lemma GenerateFailsOnlyWithoutTokens(versionUrn: string, nodes: seq<Node>, tokens: seq<Token>)
    requires forall t <- tokens :: t.textPart in nodes
    ensures GeneratePassageReference(versionUrn, nodes, tokens).Failure? <==>
      forall t <- tokens :: !OfVersion(t, versionUrn)
  {
    var ts := TokenList(tokens, versionUrn);
    var parts := PartsWithTokens(nodes, ts);
    TokenListMembers(tokens, versionUrn);
    if t :| t in tokens && OfVersion(t, versionUrn) {
      assert t in ts;
      assert t.textPart in parts;
    }
  }

  // ---------------------------------------------------------------------------
  // `passage_references`

  /** The part of a `TextAlignment` row the references read: its URN and its sorted versions. */
  datatype TextAlignment = TextAlignment(urn: string, versions: seq<Node>)

  /**
   * The metadata dictionary: the alignment records, the version URN of the
   * passage reference, and the alignment URN.
   */
  datatype AlignmentMetadata = AlignmentMetadata(alignmentRecords: seq<nat>, anchorUrn: string, alignmentUrn: string)

  /** `TextAlignment.objects.get(urn=urn)` */
  function AlignmentByUrn(alignments: seq<TextAlignment>, urn: string): (r: Result<TextAlignment, AlignmentError>)
    ensures r.Success? <==> |Filter(alignments, (a: TextAlignment) => a.urn == urn)| == 1
    ensures r.Success? ==> r.value in alignments && r.value.urn == urn
    ensures r == Failure(DoesNotExist(urn)) <==> forall a <- alignments :: a.urn != urn
  {
    var matches := Filter(alignments, (a: TextAlignment) => a.urn == urn);
    if |matches| == 0 then Failure(DoesNotExist(urn))
    else if |matches| > 1 then assert matches[0] in matches; Failure(MultipleObjectsReturned(urn))
    else assert matches[0] in matches; Success(matches[0])
  }

  /** `alignment.versions.exclude(urn=version_urn)` */
  function OtherVersions(alignment: TextAlignment, anchorUrn: string): (others: seq<Node>)
    ensures |others| <= |alignment.versions|
    ensures forall v :: v in others <==> v in alignment.versions && v.urn != anchorUrn
  {
    Filter(alignment.versions, (v: Node) => v.urn != anchorUrn)
  }

  /**
   * `exclude` keeps the alignment's order: the other versions of a
   * concatenation are those of each half in turn, and a single version stays
   * exactly when its URN differs from the anchor's.
   */
  lemma OtherVersionsKeepOrder(urn: string, front: seq<Node>, back: seq<Node>, v: Node, anchorUrn: string)
    ensures OtherVersions(TextAlignment(urn, front + back), anchorUrn)
      == OtherVersions(TextAlignment(urn, front), anchorUrn) + OtherVersions(TextAlignment(urn, back), anchorUrn)
    ensures OtherVersions(TextAlignment(urn, [v]), anchorUrn) == if v.urn != anchorUrn then [v] else []
  {
    FilterAppend(front, back, (v: Node) => v.urn != anchorUrn);
    FilterSingle(v, (v: Node) => v.urn != anchorUrn);
  }

  /** The references of the versions in order, or the first failure among them. */
  function ReferencesOf(versions: seq<Node>, nodes: seq<Node>, tokens: seq<Token>): (r: Result<seq<PassageReference>, AlignmentError>)
    ensures r.Failure? ==> r.error == IndexError
  {
    if versions == [] then Success([])
    else
      match ReferencesOf(versions[..|versions| - 1], nodes, tokens)
      case Failure(e) => Failure(e)
      case Success(front) =>
        match GeneratePassageReference(versions[|versions| - 1].urn, nodes, tokens)
        case Failure(e) => Failure(e)
        case Success(p) => Success(front + [p])
  }

  /** What `passage_references` returns, or the exception it raises first. */
  function PassageReferencesSpec(meta: AlignmentMetadata, nodes: seq<Node>, tokens: seq<Token>, alignments: seq<TextAlignment>)
    : (r: Result<seq<PassageReference>, AlignmentError>)
    ensures meta.alignmentRecords == [] ==> r == Success([])
    ensures r.Success? && meta.alignmentRecords != [] ==> |r.value| >= 1
    ensures r.Failure? ==>
      r.error == IndexError || r.error == DoesNotExist(meta.alignmentUrn) || r.error == MultipleObjectsReturned(meta.alignmentUrn)
  {
    if meta.alignmentRecords == [] then Success([])
    else
      match GeneratePassageReference(meta.anchorUrn, nodes, tokens)
      case Failure(e) => Failure(e)
      case Success(anchor) =>
        match AlignmentByUrn(alignments, meta.alignmentUrn)
        case Failure(e) => Failure(e)
        case Success(alignment) =>
          match ReferencesOf(OtherVersions(alignment, meta.anchorUrn), nodes, tokens)
          case Failure(e) => Failure(e)
          case Success(rest) => Success([anchor] + rest)
  }

  /**
   * `passage_references`: nothing without alignment records; otherwise the
   * anchor version's reference, then one per other version of the alignment.
   * `tokens` are the tokens related to the alignment records.
   */
  method PassageReferences(meta: AlignmentMetadata, nodes: seq<Node>, tokens: seq<Token>, alignments: seq<TextAlignment>)
    returns (r: Result<seq<PassageReference>, AlignmentError>)
    ensures r == PassageReferencesSpec(meta, nodes, tokens, alignments)
  {
    if meta.alignmentRecords == [] {
      return Success([]);
    }
    var anchor := GeneratePassageReference(meta.anchorUrn, nodes, tokens);
    if anchor.Failure? {
      return Failure(anchor.error);
    }
    var references := [anchor.value];
    var lookup := AlignmentByUrn(alignments, meta.alignmentUrn);
    if lookup.Failure? {
      return Failure(lookup.error);
    }
    var others := OtherVersions(lookup.value, meta.anchorUrn);
    var rest := GenerateEach(others, nodes, tokens);
    if rest.Failure? {
      return Failure(rest.error);
    }
    r := Success(references + rest.value);
  }

  /** The loop of `passage_references` over the other versions; it stops at the first exception. */
  method GenerateEach(versions: seq<Node>, nodes: seq<Node>, tokens: seq<Token>)
    returns (r: Result<seq<PassageReference>, AlignmentError>)
    ensures r == ReferencesOf(versions, nodes, tokens)
  {
    var references := [];
    for i := 0 to |versions|
      invariant ReferencesOf(versions[..i], nodes, tokens) == Success(references)
    {
      assert versions[..i + 1][..i] == versions[..i];
      var next := GeneratePassageReference(versions[i].urn, nodes, tokens);
      if next.Failure? {
        ReferencesOfFailureStays(versions, nodes, tokens, i + 1);
        return Failure(next.error);
      }
      references := references + [next.value];
    }
    assert versions[..|versions|] == versions;
    r := Success(references);
  }

  /** Once a version fails, the whole list fails with that error. */
  lemma {:induction false} ReferencesOfFailureStays(versions: seq<Node>, nodes: seq<Node>, tokens: seq<Token>, i: nat)
    requires i <= |versions| && ReferencesOf(versions[..i], nodes, tokens).Failure?
    ensures ReferencesOf(versions, nodes, tokens) == ReferencesOf(versions[..i], nodes, tokens)
    decreases |versions| - i
  {
    if i < |versions| {
      assert versions[..i + 1][..i] == versions[..i];
      ReferencesOfFailureStays(versions, nodes, tokens, i + 1);
    } else {
      assert versions[..i] == versions;
    }
  }

  /** A successful list holds one reference per version, in the versions' order. */
  lemma {:induction false} ReferencesOfSuccess(versions: seq<Node>, nodes: seq<Node>, tokens: seq<Token>)
    requires ReferencesOf(versions, nodes, tokens).Success?
    ensures var refs := ReferencesOf(versions, nodes, tokens).value;
      && |refs| == |versions|
      && forall k :: 0 <= k < |versions| ==> GeneratePassageReference(versions[k].urn, nodes, tokens) == Success(refs[k])
  {
    if versions != [] {
      var front := versions[..|versions| - 1];
      ReferencesOfSuccess(front, nodes, tokens);
      var refs := ReferencesOf(versions, nodes, tokens).value;
      var frontRefs := ReferencesOf(front, nodes, tokens).value;
      var last := GeneratePassageReference(versions[|versions| - 1].urn, nodes, tokens);
      assert last.Success? && refs == frontRefs + [last.value];
      forall k | 0 <= k < |versions|
        ensures GeneratePassageReference(versions[k].urn, nodes, tokens) == Success(refs[k])
      {
        if k < |front| {
          assert versions[k] == front[k] && refs[k] == frontRefs[k];
        } else {
          assert k == |versions| - 1 && refs[k] == last.value;
        }
      }
    }
  }

  /**
   * The shape of the result: empty without records; otherwise the anchor's
   * reference first and then, in the alignment's order, one reference per
   * version whose URN differs from the anchor's (the anchor is not repeated).
   */
  lemma PassageReferencesShape(meta: AlignmentMetadata, nodes: seq<Node>, tokens: seq<Token>, alignments: seq<TextAlignment>)
    ensures meta.alignmentRecords == [] ==> PassageReferencesSpec(meta, nodes, tokens, alignments) == Success([])
    ensures meta.alignmentRecords != [] && PassageReferencesSpec(meta, nodes, tokens, alignments).Success? ==>
      var refs := PassageReferencesSpec(meta, nodes, tokens, alignments).value;
      var alignment := AlignmentByUrn(alignments, meta.alignmentUrn).value;
      var others := OtherVersions(alignment, meta.anchorUrn);
      && alignment in alignments && alignment.urn == meta.alignmentUrn
      && |refs| == |others| + 1
      && GeneratePassageReference(meta.anchorUrn, nodes, tokens) == Success(refs[0])
      && (forall k :: 0 <= k < |others| ==> GeneratePassageReference(others[k].urn, nodes, tokens) == Success(refs[k + 1]))
      && (forall v :: v in others <==> v in alignment.versions && v.urn != meta.anchorUrn)
  {
    if meta.alignmentRecords != [] && PassageReferencesSpec(meta, nodes, tokens, alignments).Success? {
      var alignment := AlignmentByUrn(alignments, meta.alignmentUrn).value;
      ReferencesOfSuccess(OtherVersions(alignment, meta.anchorUrn), nodes, tokens);
    }
  }
}
