/**
 * The per-version tokenization driver (`tokenize_text_parts`): optionally
 * reset the version's tokens, find the version node by URN, select its
 * lowest-level text parts, and tokenize them in path order with one idx
 * counter shared by the whole version.
 */
module Tokenizers {
  import opened Common
  import opened Strings
  import opened NodeTree
  import opened Tokens

  /** The exceptions the driver can raise before it creates anything. */
  datatype TokenizeError =
    | DoesNotExist(urn: string)
    | MultipleObjectsReturned(urn: string)
    | MissingCitationScheme   // `metadata["citation_scheme"]` raises KeyError
    | EmptyCitationScheme     // `[...][-1]` raises IndexError

  /** `Node.objects.get(urn=urn)` */
  function NodeByUrn(nodes: seq<Node>, urn: string): (r: Result<Node, TokenizeError>)
    ensures r.Success? <==> |Filter(nodes, (n: Node) => n.urn == urn)| == 1
    ensures r.Success? ==> r.value in nodes && r.value.urn == urn
    ensures r == Failure(DoesNotExist(urn)) <==> forall n <- nodes :: n.urn != urn
  {
    var matches := Filter(nodes, (n: Node) => n.urn == urn);
    if |matches| == 0 then Failure(DoesNotExist(urn))
    else if |matches| > 1 then assert matches[0] in matches; Failure(MultipleObjectsReturned(urn))
    else assert matches[0] in matches; Success(matches[0])
  }

  /** `metadata["citation_scheme"][-1]`: the kind of the version's text parts. */
  function LowestKind(version: Node): (r: Result<string, TokenizeError>)
    ensures r.Success? <==> version.metadata.citationScheme.Some? && version.metadata.citationScheme.value != []
    ensures r.Success? ==> r.value == version.metadata.citationScheme.value[|version.metadata.citationScheme.value| - 1]
  {
    match version.metadata.citationScheme
    case None => Failure(MissingCitationScheme)
    case Some(scheme) => if scheme == [] then Failure(EmptyCitationScheme) else Success(scheme[|scheme| - 1])
  }

  /** `version.get_descendants().filter(kind=lowest_kind)` */
  function TextParts(nodes: seq<Node>, version: Node, lowestKind: string): (parts: seq<Node>)
    ensures |parts| <= |nodes|
    ensures forall n <- parts :: n in Descendants(nodes, version) && n.kind == lowestKind
  {
    Filter(Descendants(nodes, version), (n: Node) => n.kind == lowestKind)
  }

  /** The text parts the driver tokenizes for a version URN, or the error it raises first. */
  function TokenizePlan(nodes: seq<Node>, versionUrn: string): (r: Result<seq<Node>, TokenizeError>)
    ensures NodeByUrn(nodes, versionUrn).Failure? ==> r == Failure(NodeByUrn(nodes, versionUrn).error)
    ensures r.Success? ==> NodeByUrn(nodes, versionUrn).Success? && LowestKind(NodeByUrn(nodes, versionUrn).value).Success?
    ensures r.Failure? && NodeByUrn(nodes, versionUrn).Success? ==> r.error == MissingCitationScheme || r.error == EmptyCitationScheme
  {
    match NodeByUrn(nodes, versionUrn)
    case Failure(e) => Failure(e)
    case Success(version) =>
      match LowestKind(version)
      case Failure(e) => Failure(e)
      case Success(kind) => Success(TextParts(nodes, version, kind))
  }

  /** The tokens of successive text parts, numbered consecutively from `start`. */
  function VersionTokens(parts: seq<Node>, start: int): (ts: seq<Token>)
    ensures |ts| == PieceCount(parts)
  {
    if parts == [] then []
    else
      var front := VersionTokens(parts[..|parts| - 1], start);
      front + PartTokens(parts[|parts| - 1], start + |front|)
  }

  /** The number of whitespace pieces over the text parts. */
  function PieceCount(parts: seq<Node>): nat
  {
    if parts == [] then 0 else PieceCount(parts[..|parts| - 1]) + |Pieces(parts[|parts| - 1].textContent)|
  }

  /** `__icontains`: the tokens a forced reset for `versionUrn` deletes. */
  predicate ResetHits(t: Token, versionUrn: string)
  {
    IContains(t.textPart.urn, versionUrn)
  }

  /** The token table after the optional reset: the tokens it does not hit, in their order. */
  function AfterReset(tokens: seq<Token>, versionUrn: string, force: bool): (kept: seq<Token>)
    ensures !force ==> kept == tokens
    ensures force ==> forall t :: t in kept <==> t in tokens && !ResetHits(t, versionUrn)
  {
    if force then Filter(tokens, (t: Token) => !ResetHits(t, versionUrn)) else tokens
  }

  /** The `Token` table. */
  class TokenStore {
    var tokens: seq<Token>

    constructor (initial: seq<Token>)
      ensures tokens == initial
    {
      tokens := initial;
    }
  }

  /**
   * `tokenize_text_parts`: with `force`, delete every token whose text part
   * URN contains the version URN (ignoring case) and keep the rest in order;
   * then, unless the lookup fails, append the version's tokens. Returns the
   * number of tokens created.
   */
  method TokenizeTextParts(store: TokenStore, nodes: seq<Node>, versionUrn: string, force: bool)
    returns (r: Result<nat, TokenizeError>)
    modifies store
    ensures var kept := AfterReset(old(store.tokens), versionUrn, force);
      match TokenizePlan(nodes, versionUrn)
      case Failure(e) => r == Failure(e) && store.tokens == kept
      case Success(parts) =>
        && r == Success(|VersionTokens(parts, 0)|)
        && store.tokens == kept + VersionTokens(parts, 0)
  {
    if force {
      store.tokens := AfterReset(store.tokens, versionUrn, force);
    }
    var lookup := NodeByUrn(nodes, versionUrn);
    if lookup.Failure? {
      return Failure(lookup.error);
    }
    var version := lookup.value;
    var lowest := LowestKind(version);
    if lowest.Failure? {
      return Failure(lowest.error);
    }
    var parts := TextParts(nodes, version, lowest.value);
    assert TokenizePlan(nodes, versionUrn) == Success(parts);
    var toCreate := TokenizeParts(parts);
    store.tokens := store.tokens + toCreate;
    r := Success(|toCreate|);
  }

  /**
   * The loop of `tokenize_text_parts`: tokenize the text parts in order with
   * one fresh idx counter starting at 0.
   */
  method TokenizeParts(parts: seq<Node>) returns (toCreate: seq<Token>)
    ensures toCreate == VersionTokens(parts, 0)
  {
    var counters := new Counters(0);
    toCreate := [];
    for i := 0 to |parts|
      invariant toCreate == VersionTokens(parts[..i], 0)
      invariant counters.tokenIdx == |toCreate|
    {
      assert parts[..i + 1][..i] == parts[..i];
      var partTokens := Tokenize(parts[i], counters);
      toCreate := toCreate + partTokens;
    }
    assert parts[..|parts|] == parts;
  }

  // ---------------------------------------------------------------------------
  // Properties of the version's tokens

  /** The text parts are the version's stored descendants of the lowest kind, in path order. */
  lemma TextPartsAreLowestDescendants(nodes: seq<Node>, version: Node, lowestKind: string)
    requires WellFormedStore(nodes) && version in nodes
    ensures forall n :: n in TextParts(nodes, version, lowestKind) <==>
      n in nodes && IsStrictPrefix(version.path, n.path) && n.kind == lowestKind
    ensures PathOrdered(TextParts(nodes, version, lowestKind))
  {
    DescendantsAreStrictExtensions(nodes, version);
    FilterPairwise(Descendants(nodes, version), (n: Node) => n.kind == lowestKind,
      (a: Node, b: Node) => LexLess(a.path, b.path));
  }

  /**
   * One token per piece of every text part; the idx values run from `start`
   * without gaps in token order, so a version's tokens are numbered 0..N-1.
   */
  lemma {:induction false} VersionTokensNumbering(parts: seq<Node>, start: int)
    ensures |VersionTokens(parts, start)| == PieceCount(parts)
    ensures forall k :: 0 <= k < |VersionTokens(parts, start)| ==> VersionTokens(parts, start)[k].idx == start + k
    ensures forall k :: 0 <= k < |VersionTokens(parts, start)| ==> VersionTokens(parts, start)[k].textPart in parts
  {
    if parts != [] {
      var init := parts[..|parts| - 1];
      var last := parts[|parts| - 1];
      VersionTokensNumbering(init, start);
      var front := VersionTokens(init, start);
      var tail := PartTokens(last, start + |front|);
      var all := VersionTokens(parts, start);
      assert all == front + tail;
      forall k | 0 <= k < |all|
        ensures all[k].idx == start + k && all[k].textPart in parts
      {
        if k < |front| {
          assert all[k] == front[k];
          assert front[k].textPart in init;
        } else {
          assert all[k] == tail[k - |front|];
        }
      }
    }
  }

  /**
   * The tokens of each text part form a contiguous block: the part's tokens
   * come after those of every earlier part and are exactly `PartTokens` of it.
   */
  lemma {:induction false} VersionTokensBlocks(parts: seq<Node>, start: int, i: nat)
    requires i < |parts|
    ensures var before := VersionTokens(parts[..i], start);
      VersionTokens(parts[..i + 1], start) == before + PartTokens(parts[i], start + |before|)
      && before <= VersionTokens(parts, start)
  {
    assert parts[..i + 1][..i] == parts[..i];
    VersionTokensPrefix(parts, start, i);
  }

  lemma {:induction false} VersionTokensPrefix(parts: seq<Node>, start: int, i: nat)
    requires i <= |parts|
    ensures VersionTokens(parts[..i], start) <= VersionTokens(parts, start)
    decreases |parts| - i
  {
    if i < |parts| {
      VersionTokensPrefix(parts, start, i + 1);
      assert parts[..i + 1][..i] == parts[..i];
    } else {
      assert parts[..i] == parts;
    }
  }

  /**
   * A forced reset is a substring test, not a prefix test: resetting "v1"
   * deletes the tokens of a version "V10" as well.
   */
  lemma ResetHitsLongerUrns(t: Token)
    requires t.textPart.urn == "V10"
    ensures ResetHits(t, "v1")
  {
    assert Lower("V10") == "v10";
    assert Lower("v1") == "v1";
    ContainsAt("v10", "v1", 0);
  }
}
