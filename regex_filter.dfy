/**
 * `filter_commits_by_field`: keep the commits whose chosen field the pattern matches. The regex
 * engine is outside the model: `Regex::new(pattern)` becomes an `Option` that is `None` when
 * the pattern does not compile and otherwise holds the compiled matcher as an opaque predicate.
 */
module RegexFilter {
  import opened Wrappers
  import opened GraphTypes
  import opened Filter

  const InvalidPattern: string := "Invalid regex pattern"

  /** The text a field name selects: "message"/"subject", "author" and "sha"/"hash"; any other name none. */
  function FieldValue(node: LayoutNode, field: string): Option<string> {
    if field == "message" || field == "subject" then Some(node.subject)
    else if field == "author" then Some(node.authorName)
    else if field == "sha" || field == "hash" then Some(node.sha)
    else None
  }

  /** A node passes when its field exists and the matcher accepts it. */
  predicate FieldMatch(node: LayoutNode, field: string, isMatch: string -> bool) {
    var v := FieldValue(node, field);
    v.Some? && isMatch(v.value)
  }

  /** The shas of the nodes whose field the matcher accepts (`matching_shas`). */
  function FieldMatches(nodes: seq<LayoutNode>, field: string, isMatch: string -> bool): (shas: set<string>)
    ensures shas <= NodeShas(nodes)
    ensures forall i :: 0 <= i < |nodes| && FieldMatch(nodes[i], field, isMatch) ==> nodes[i].sha in shas
    ensures forall s :: s in shas ==>
      exists i :: 0 <= i < |nodes| && nodes[i].sha == s && FieldMatch(nodes[i], field, isMatch)
  {
    Matching(nodes, (n: LayoutNode) => FieldMatch(n, field, isMatch))
  }

  /** `filter_commits_by_field`, given what compiling the pattern produced. */
  function FilterByField(layout: LayoutResult, field: string, compiled: Option<string -> bool>)
    : (r: Result<LayoutResult>)
    ensures r.Err? <==> compiled.None?
    ensures r.Ok? ==> r.value.totalCount == |r.value.nodes|
    ensures r.Ok? ==> forall n :: n in r.value.nodes <==>
      n in layout.nodes && n.sha in FieldMatches(layout.nodes, field, compiled.value)
    ensures r.Ok? ==> forall e :: e in r.value.edges <==>
      e in layout.edges && e.fromSha in FieldMatches(layout.nodes, field, compiled.value)
      && e.toSha in FieldMatches(layout.nodes, field, compiled.value)
  {
    match compiled
    case None => Err(InvalidPattern)
    case Some(isMatch) => Ok(Restrict(layout, FieldMatches(layout.nodes, field, isMatch)))
  }

  /** The field aliases: which names select which text. */
  lemma FieldAliases(node: LayoutNode, field: string)
    ensures FieldValue(node, field).Some? <==> field in ["message", "subject", "author", "sha", "hash"]
    ensures field == "message" || field == "subject" ==> FieldValue(node, field) == Some(node.subject)
    ensures field == "author" ==> FieldValue(node, field) == Some(node.authorName)
    ensures field == "sha" || field == "hash" ==> FieldValue(node, field) == Some(node.sha)
  {
  }

  /** Any other field name, "committer" included, matches nothing: the result is empty. */
  lemma UnknownFieldIsEmpty(layout: LayoutResult, field: string, isMatch: string -> bool)
    requires field !in ["message", "subject", "author", "sha", "hash"]
    ensures FilterByField(layout, field, Some(isMatch)) == Ok(LayoutResult([], [], 0))
  {
    var shas := FieldMatches(layout.nodes, field, isMatch);
    forall i | 0 <= i < |layout.nodes|
      ensures FieldValue(layout.nodes[i], field).None?
    {
      FieldAliases(layout.nodes[i], field);
    }
    assert shas == {};
    KeptNothing(layout.nodes, layout.edges);
  }

  /** Restricting to no sha keeps no node and no edge. */
  lemma {:induction false} KeptNothing(nodes: seq<LayoutNode>, edges: seq<Edge>)
    decreases |nodes| + |edges|
    ensures KeptNodes(nodes, {}) == [] && KeptEdges(edges, {}) == []
  {
    if nodes != [] {
      KeptNothing(nodes[1..], edges);
    } else if edges != [] {
      KeptNothing(nodes, edges[1..]);
    }
  }

  /** When no two nodes share a sha, a node is kept exactly when its own field matches. */
  lemma FilterByFieldUnique(layout: LayoutResult, field: string, isMatch: string -> bool, n: LayoutNode)
    requires forall i, j :: 0 <= i < j < |layout.nodes| ==> layout.nodes[i].sha != layout.nodes[j].sha
    ensures n in FilterByField(layout, field, Some(isMatch)).value.nodes <==>
      n in layout.nodes && FieldMatch(n, field, isMatch)
  {
    if n in FilterByField(layout, field, Some(isMatch)).value.nodes {
      var i :| 0 <= i < |layout.nodes| && layout.nodes[i] == n;
      var j :| 0 <= j < |layout.nodes| && layout.nodes[j].sha == n.sha && FieldMatch(layout.nodes[j], field, isMatch);
      assert i == j;
    }
  }

  /** Filtering the result again with the same field and pattern changes nothing. */
  lemma FilterByFieldIdempotent(layout: LayoutResult, field: string, isMatch: string -> bool)
    ensures var once := FilterByField(layout, field, Some(isMatch)).value;
      FilterByField(once, field, Some(isMatch)) == Ok(once)
  {
    RestrictMatchingTwice(layout, (n: LayoutNode) => FieldMatch(n, field, isMatch));
  }

  /** The filtered layout has no dangling edge: both ends of each edge are kept nodes. */
  lemma FilterByFieldClosed(layout: LayoutResult, field: string, isMatch: string -> bool)
    ensures var r := FilterByField(layout, field, Some(isMatch)).value;
      forall e :: e in r.edges ==> e.fromSha in NodeShas(r.nodes) && e.toSha in NodeShas(r.nodes)
  {
    RestrictClosed(layout, FieldMatches(layout.nodes, field, isMatch));
  }
}
