/**
 * The restriction both layout filters end with: given the set of matching shas, keep the
 * nodes whose sha is in it and the edges whose two ends are both in it, each in their original
 * order, and recount. The two filters differ only in how they choose the set.
 */
module Filter {
  import opened GraphTypes

  /** The shas of the nodes `pass` accepts, as `filter(..).map(|n| n.sha).collect()` gathers them. */
  function Matching(nodes: seq<LayoutNode>, pass: LayoutNode -> bool): (shas: set<string>)
    ensures shas <= NodeShas(nodes)
    ensures forall i :: 0 <= i < |nodes| && pass(nodes[i]) ==> nodes[i].sha in shas
    ensures forall s :: s in shas ==> exists i :: 0 <= i < |nodes| && nodes[i].sha == s && pass(nodes[i])
  {
    set i | 0 <= i < |nodes| && pass(nodes[i]) :: nodes[i].sha
  }

  /** The nodes whose sha is in `shas`, in order. */
  function KeptNodes(nodes: seq<LayoutNode>, shas: set<string>): (kept: seq<LayoutNode>)
    ensures |kept| <= |nodes|
  {
    if nodes == [] then []
    else (if nodes[0].sha in shas then [nodes[0]] else []) + KeptNodes(nodes[1..], shas)
  }

  /** The edges whose two ends both have their sha in `shas`, in order. */
  function KeptEdges(edges: seq<Edge>, shas: set<string>): (kept: seq<Edge>)
    ensures |kept| <= |edges|
  {
    if edges == [] then []
    else
      (if edges[0].fromSha in shas && edges[0].toSha in shas then [edges[0]] else [])
      + KeptEdges(edges[1..], shas)
  }

  /** The layout cut down to the shas in `shas`, with `total_count` recounted. */
  function Restrict(layout: LayoutResult, shas: set<string>): (r: LayoutResult)
    ensures r.totalCount == |r.nodes| <= |layout.nodes|
    ensures forall n :: n in r.nodes <==> n in layout.nodes && n.sha in shas
    ensures forall e :: e in r.edges <==> e in layout.edges && e.fromSha in shas && e.toSha in shas
  {
    KeptNodesMembers(layout.nodes, shas);
    KeptEdgesMembers(layout.edges, shas);
    var nodes := KeptNodes(layout.nodes, shas);
    LayoutResult(nodes, KeptEdges(layout.edges, shas), |nodes|)
  }

  /** A node is kept exactly when it is in the input and its sha is chosen. */
  lemma {:induction false} KeptNodesMembers(nodes: seq<LayoutNode>, shas: set<string>)
    ensures forall n :: n in KeptNodes(nodes, shas) <==> n in nodes && n.sha in shas
  {
    if nodes != [] {
      KeptNodesMembers(nodes[1..], shas);
      assert nodes == [nodes[0]] + nodes[1..];
    }
  }

  /** An edge is kept exactly when it is in the input and both its ends are chosen. */
  lemma {:induction false} KeptEdgesMembers(edges: seq<Edge>, shas: set<string>)
    ensures forall e :: e in KeptEdges(edges, shas) <==> e in edges && e.fromSha in shas && e.toSha in shas
  {
    if edges != [] {
      KeptEdgesMembers(edges[1..], shas);
      assert edges == [edges[0]] + edges[1..];
    }
  }

  /** Keeping nodes commutes with concatenation: the kept nodes stay in their input order. */
  lemma {:induction false} KeptNodesAppend(a: seq<LayoutNode>, b: seq<LayoutNode>, shas: set<string>)
    ensures KeptNodes(a + b, shas) == KeptNodes(a, shas) + KeptNodes(b, shas)
  {
    if a != [] {
      assert (a + b)[0] == a[0];
      assert (a + b)[1..] == a[1..] + b;
      KeptNodesAppend(a[1..], b, shas);
      var head := KeptNodes([a[0]], shas);
      assert [a[0]][1..] == [];
      assert KeptNodes(a, shas) == head + KeptNodes(a[1..], shas);
      assert KeptNodes(a + b, shas) == head + KeptNodes(a[1..] + b, shas);
    } else {
      assert a + b == b;
    }
  }

  /** Keeping edges commutes with concatenation: the kept edges stay in their input order. */
  lemma {:induction false} KeptEdgesAppend(a: seq<Edge>, b: seq<Edge>, shas: set<string>)
    ensures KeptEdges(a + b, shas) == KeptEdges(a, shas) + KeptEdges(b, shas)
  {
    if a != [] {
      assert (a + b)[0] == a[0];
      assert (a + b)[1..] == a[1..] + b;
      KeptEdgesAppend(a[1..], b, shas);
      var head := KeptEdges([a[0]], shas);
      assert [a[0]][1..] == [];
      assert KeptEdges(a, shas) == head + KeptEdges(a[1..], shas);
      assert KeptEdges(a + b, shas) == head + KeptEdges(a[1..] + b, shas);
    } else {
      assert a + b == b;
    }
  }

  /** When every node's sha is kept, the node list comes back unchanged. */
  lemma {:induction false} KeptNodesAll(nodes: seq<LayoutNode>, shas: set<string>)
    requires forall i :: 0 <= i < |nodes| ==> nodes[i].sha in shas
    ensures KeptNodes(nodes, shas) == nodes
  {
    if nodes != [] {
      KeptNodesAll(nodes[1..], shas);
    }
  }

  /** Keeping twice with the same set is keeping once. */
  lemma {:induction false} KeptNodesTwice(nodes: seq<LayoutNode>, shas: set<string>)
    ensures KeptNodes(KeptNodes(nodes, shas), shas) == KeptNodes(nodes, shas)
  {
    var kept := KeptNodes(nodes, shas);
    KeptNodesMembers(nodes, shas);
    forall i | 0 <= i < |kept|
      ensures kept[i].sha in shas
    {
      assert kept[i] in kept;
    }
    KeptNodesAll(kept, shas);
  }

  /** Keeping twice with the same set is keeping once. */
  lemma {:induction false} KeptEdgesTwice(edges: seq<Edge>, shas: set<string>)
    ensures KeptEdges(KeptEdges(edges, shas), shas) == KeptEdges(edges, shas)
  {
    if edges != [] {
      KeptEdgesTwice(edges[1..], shas);
      var head := if edges[0].fromSha in shas && edges[0].toSha in shas then [edges[0]] else [];
      KeptEdgesAppend(head, KeptEdges(edges[1..], shas), shas);
      if head != [] {
        assert KeptEdges(head, shas) == head by {
          assert head[1..] == [];
        }
      }
    }
  }

  /** Restricting twice to the same set is restricting once. */
  lemma RestrictTwice(layout: LayoutResult, shas: set<string>)
    ensures Restrict(Restrict(layout, shas), shas) == Restrict(layout, shas)
  {
    KeptNodesTwice(layout.nodes, shas);
    KeptEdgesTwice(layout.edges, shas);
  }

  /**
   * Filtering the result of a filter again with the same node test changes nothing: the kept
   * nodes have exactly the matching shas again.
   */
  lemma RestrictMatchingTwice(layout: LayoutResult, pass: LayoutNode -> bool)
    ensures var once := Restrict(layout, Matching(layout.nodes, pass));
      Restrict(once, Matching(once.nodes, pass)) == once
  {
    var shas := Matching(layout.nodes, pass);
    var once := Restrict(layout, shas);
    MatchingOfKept(layout, pass);
    RestrictTwice(layout, shas);
  }

  /** The nodes a filter keeps match the same shas as the nodes it started from. */
  lemma MatchingOfKept(layout: LayoutResult, pass: LayoutNode -> bool)
    ensures Matching(Restrict(layout, Matching(layout.nodes, pass)).nodes, pass) == Matching(layout.nodes, pass)
  {
    MatchingKeptCovers(layout, pass);
    MatchingKeptWithin(layout, pass);
  }

  /** Every matching sha still matches among the kept nodes: its matching node is kept. */
  lemma MatchingKeptCovers(layout: LayoutResult, pass: LayoutNode -> bool)
    ensures Matching(layout.nodes, pass) <= Matching(Restrict(layout, Matching(layout.nodes, pass)).nodes, pass)
  {
    var shas := Matching(layout.nodes, pass);
    var once := Restrict(layout, shas);
    forall s | s in shas
      ensures s in Matching(once.nodes, pass)
    {
      var i :| 0 <= i < |layout.nodes| && layout.nodes[i].sha == s && pass(layout.nodes[i]);
      assert layout.nodes[i] in once.nodes;
    }
  }

  /** A sha matching among the kept nodes matched before: kept nodes come from the input. */
  lemma MatchingKeptWithin(layout: LayoutResult, pass: LayoutNode -> bool)
    ensures Matching(Restrict(layout, Matching(layout.nodes, pass)).nodes, pass) <= Matching(layout.nodes, pass)
  {
    var once := Restrict(layout, Matching(layout.nodes, pass));
    forall s | s in Matching(once.nodes, pass)
      ensures s in Matching(layout.nodes, pass)
    {
      var i :| 0 <= i < |once.nodes| && once.nodes[i].sha == s && pass(once.nodes[i]);
      assert once.nodes[i] in layout.nodes;
    }
  }

  /**
   * A restriction to shas of the layout's own nodes leaves no dangling edge: both ends of every
   * kept edge are shas of kept nodes.
   */
  lemma RestrictClosed(layout: LayoutResult, shas: set<string>)
    requires shas <= NodeShas(layout.nodes)
    ensures forall e :: e in Restrict(layout, shas).edges ==>
      e.fromSha in NodeShas(Restrict(layout, shas).nodes) && e.toSha in NodeShas(Restrict(layout, shas).nodes)
  {
    var r := Restrict(layout, shas);
    forall e | e in r.edges
      ensures e.fromSha in NodeShas(r.nodes) && e.toSha in NodeShas(r.nodes)
    {
      var i :| 0 <= i < |layout.nodes| && layout.nodes[i].sha == e.fromSha;
      var j :| 0 <= j < |layout.nodes| && layout.nodes[j].sha == e.toSha;
      assert layout.nodes[i] in r.nodes;
      assert layout.nodes[j] in r.nodes;
    }
  }

  /** The shas of the nodes `Restrict` keeps are exactly the chosen shas the layout has. */
  lemma RestrictShas(layout: LayoutResult, shas: set<string>)
    ensures NodeShas(Restrict(layout, shas).nodes) == shas * NodeShas(layout.nodes)
  {
    var r := Restrict(layout, shas);
    forall s | s in shas * NodeShas(layout.nodes)
      ensures s in NodeShas(r.nodes)
    {
      var i :| 0 <= i < |layout.nodes| && layout.nodes[i].sha == s;
      assert layout.nodes[i] in r.nodes;
    }
    forall s | s in NodeShas(r.nodes)
      ensures s in shas * NodeShas(layout.nodes)
    {
      var i :| 0 <= i < |r.nodes| && r.nodes[i].sha == s;
      assert r.nodes[i] in layout.nodes;
    }
  }
}
