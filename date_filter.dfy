/**
 * `filter_commits_by_date`: keep the commits whose author date lies between two bounds, both
 * inclusive, where a bound of 0 means that side is open. A commit is kept when ANY node with
 * its sha is in range (the matching set is a set of shas), and edges survive only when both
 * ends are kept.
 */
module DateFilter {
  import opened GraphTypes
  import opened Filter

  /** The date test of one node: `after == 0 || date >= after` and `before == 0 || date <= before`. */
  predicate InRange(date: nat, after: nat, before: nat) {
    (after == 0 || date >= after) && (before == 0 || date <= before)
  }

  /** The shas of the nodes dated within the bounds (`matching_shas`). */
  function DateMatches(nodes: seq<LayoutNode>, after: nat, before: nat): (shas: set<string>)
    ensures shas <= NodeShas(nodes)
    ensures forall i :: 0 <= i < |nodes| && InRange(nodes[i].authorDate, after, before) ==> nodes[i].sha in shas
    ensures forall s :: s in shas ==>
      exists i :: 0 <= i < |nodes| && nodes[i].sha == s && InRange(nodes[i].authorDate, after, before)
  {
    Matching(nodes, (n: LayoutNode) => InRange(n.authorDate, after, before))
  }

  /** `filter_commits_by_date`. */
  function FilterByDate(layout: LayoutResult, after: nat, before: nat): (r: LayoutResult)
    ensures r.totalCount == |r.nodes|
    ensures forall n :: n in r.nodes <==> n in layout.nodes && n.sha in DateMatches(layout.nodes, after, before)
    ensures forall e :: e in r.edges <==>
      e in layout.edges && e.fromSha in DateMatches(layout.nodes, after, before)
      && e.toSha in DateMatches(layout.nodes, after, before)
  {
    Restrict(layout, DateMatches(layout.nodes, after, before))
  }

  /** When no two nodes share a sha, a node is kept exactly when its own date is in range. */
  lemma FilterByDateUnique(layout: LayoutResult, after: nat, before: nat, n: LayoutNode)
    requires forall i, j :: 0 <= i < j < |layout.nodes| ==> layout.nodes[i].sha != layout.nodes[j].sha
    ensures n in FilterByDate(layout, after, before).nodes <==>
      n in layout.nodes && InRange(n.authorDate, after, before)
  {
    if n in FilterByDate(layout, after, before).nodes {
      var i :| 0 <= i < |layout.nodes| && layout.nodes[i] == n;
      var j :| 0 <= j < |layout.nodes| && layout.nodes[j].sha == n.sha && InRange(layout.nodes[j].authorDate, after, before);
      assert i == j;
    }
  }

  /** Bounds of 0 and 0 keep every node, in order, and every edge between two of them. */
  lemma NoBoundsKeepsAll(layout: LayoutResult)
    ensures FilterByDate(layout, 0, 0).nodes == layout.nodes
    ensures FilterByDate(layout, 0, 0).totalCount == |layout.nodes|
    ensures forall e :: e in FilterByDate(layout, 0, 0).edges <==>
      e in layout.edges && e.fromSha in NodeShas(layout.nodes) && e.toSha in NodeShas(layout.nodes)
  {
    var shas := DateMatches(layout.nodes, 0, 0);
    assert shas == NodeShas(layout.nodes);
    KeptNodesAll(layout.nodes, shas);
  }

  /** Filtering again with the same bounds changes nothing. */
  lemma FilterByDateIdempotent(layout: LayoutResult, after: nat, before: nat)
    ensures FilterByDate(FilterByDate(layout, after, before), after, before) == FilterByDate(layout, after, before)
  {
    RestrictMatchingTwice(layout, (n: LayoutNode) => InRange(n.authorDate, after, before));
  }

  /** The filtered layout has no dangling edge: both ends of each edge are kept nodes. */
  lemma FilterByDateClosed(layout: LayoutResult, after: nat, before: nat)
    ensures forall e :: e in FilterByDate(layout, after, before).edges ==>
      e.fromSha in NodeShas(FilterByDate(layout, after, before).nodes)
      && e.toSha in NodeShas(FilterByDate(layout, after, before).nodes)
  {
    RestrictClosed(layout, DateMatches(layout.nodes, after, before));
  }

  /** Narrowing the window never keeps more: a node kept by the narrower bounds is kept by the wider. */
  lemma NarrowerKeepsLess(layout: LayoutResult, after: nat, before: nat, after': nat, before': nat)
    requires after <= after'
    requires before == 0 || (before' != 0 && before' <= before)
    ensures forall n :: n in FilterByDate(layout, after', before').nodes ==> n in FilterByDate(layout, after, before).nodes
  {
    assert forall d: nat :: InRange(d, after', before') ==> InRange(d, after, before);
  }
}
