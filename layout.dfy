/**
 * The lane/row layout engine of `core/src/graph/layout.rs`. Commits are walked in the order
 * given; each gets the row equal to its position and a lane: the one reserved for it by an
 * earlier child, or else the lowest free lane. The first parent inherits the commit's lane,
 * further parents get lanes of their own, and one edge is emitted per parent. A second pass
 * points each edge at the row (and lane) of its target, when the target is in the input.
 */
module Layout {
  import opened Wrappers
  import opened Text
  import opened GraphTypes

  /** Number of colour classes; every colour index is below it. */
  const PaletteSize: nat := 12
  const HashSeed: nat := 5381
  const U32Modulus: nat := 0x1_0000_0000

  // ---------------------------------------------------------------------------
  // hash_branch_name
  // ---------------------------------------------------------------------------

  /** The hash accumulator after `bytes`: start at 5381, then `h * 33 + b` in wrapping `u32`. */
  function Djb2(bytes: seq<nat>): nat {
    if bytes == [] then HashSeed
    else ((Djb2(bytes[..|bytes| - 1]) * 33) % U32Modulus + bytes[|bytes| - 1]) % U32Modulus
  }

  function Pow(b: nat, n: nat): nat {
    if n == 0 then 1 else b * Pow(b, n - 1)
  }

  /** `sum over k of bytes[k] * 33^(n-1-k)`, the contribution of the bytes to the hash. */
  function WeightedSum(bytes: seq<nat>): nat {
    if bytes == [] then 0 else bytes[0] * Pow(33, |bytes| - 1) + WeightedSum(bytes[1..])
  }

  /** The colour class of a name: its hash reduced modulo the palette size. */
  function BranchColor(name: string): nat {
    Djb2(Utf8(name)) % PaletteSize
  }

  lemma {:induction false} WeightedSumSnoc(bytes: seq<nat>, b: nat)
    ensures WeightedSum(bytes + [b]) == WeightedSum(bytes) * 33 + b
    decreases |bytes|
  {
    if bytes == [] {
      assert bytes + [b] == [b];
      assert [b][1..] == [];
    } else {
      var xs := bytes + [b];
      assert xs[0] == bytes[0] && xs[1..] == bytes[1..] + [b];
      WeightedSumSnoc(bytes[1..], b);
      calc {
        WeightedSum(xs);
        bytes[0] * Pow(33, |bytes|) + WeightedSum(bytes[1..] + [b]);
        bytes[0] * (33 * Pow(33, |bytes| - 1)) + WeightedSum(bytes[1..]) * 33 + b;
        (bytes[0] * Pow(33, |bytes| - 1) + WeightedSum(bytes[1..])) * 33 + b;
      }
    }
  }

  /** Two wrapping steps (`wrapping_mul`, then `wrapping_add`) reduce like one. */
  lemma WrapStep(x: nat, b: nat)
    ensures ((x % U32Modulus * 33) % U32Modulus + b) % U32Modulus == (x * 33 + b) % U32Modulus
  {
    var m := U32Modulus;
    var r := x % m;
    ModOfSum(x * 33 + b, r * 33 + b, m, x / m * 33);
    ModOfSum(r * 33 + b, (r * 33) % m + b, m, (r * 33) / m);
  }

  /** Adding a multiple of `m` does not change the remainder. */
  lemma ModOfSum(a: nat, c: nat, m: nat, k: nat)
    requires m > 0
    requires a == c + k * m
    ensures a % m == c % m
  {
    var q, r := c / m, c % m;
    assert c == q * m + r;
    assert a == (q + k) * m + r;
    ModUnique(a, q + k, r, m);
  }

  lemma ModUnique(a: nat, q: nat, r: nat, m: nat)
    requires m > 0 && r < m && a == q * m + r
    ensures a % m == r
  {
    var q', r' := a / m, a % m;
    assert a == q' * m + r';
    if q < q' {
      MulMonotone(q + 1, q', m);
      assert false;
    } else if q' < q {
      MulMonotone(q' + 1, q, m);
      assert false;
    }
  }

  lemma MulMonotone(x: nat, y: nat, m: nat)
    requires x <= y
    ensures x * m <= y * m
  {
  }

  /**
   * The wrapping accumulator is the unbounded polynomial
   * `5381 * 33^n + sum over k of bytes[k] * 33^(n-1-k)` reduced modulo 2^32.
   */
  lemma {:induction false} Djb2ClosedForm(bytes: seq<nat>)
    ensures Djb2(bytes) == (HashSeed * Pow(33, |bytes|) + WeightedSum(bytes)) % U32Modulus
    decreases |bytes|
  {
    if bytes != [] {
      var init, b := bytes[..|bytes| - 1], bytes[|bytes| - 1];
      assert bytes == init + [b];
      Djb2ClosedForm(init);
      WeightedSumSnoc(init, b);
      var x := HashSeed * Pow(33, |init|) + WeightedSum(init);
      WrapStep(x, b);
      assert x * 33 + b == HashSeed * Pow(33, |bytes|) + WeightedSum(bytes);
    }
  }

  /** `hash_branch_name`: the accumulating loop, in range 0..11. */
  method HashBranchName(name: string) returns (color: nat)
    ensures color == BranchColor(name)
    ensures color < PaletteSize
  {
    var bytes := Utf8(name);
    var hash: nat := HashSeed;
    for i := 0 to |bytes|
      invariant hash == Djb2(bytes[..i])
    {
      assert bytes[..i + 1][..i] == bytes[..i];
      hash := ((hash * 33) % U32Modulus + bytes[i]) % U32Modulus;
    }
    assert bytes[..|bytes|] == bytes;
    color := hash % PaletteSize;
  }

  // ---------------------------------------------------------------------------
  // determine_node_type, determine_color_index
  // ---------------------------------------------------------------------------

  predicate IsMarker(r: RefInfo) {
    r.refType == RefType.Head || r.refType == RefType.Stash
  }

  predicate IsBranchLike(r: RefInfo) {
    r.refType == RefType.Branch || r.refType == RefType.RemoteBranch
  }

  /** `refs[i]` is the first Head or Stash ref of the list. */
  predicate IsFirstMarker(refs: seq<RefInfo>, i: int) {
    0 <= i < |refs| && IsMarker(refs[i]) && forall j :: 0 <= j < i ==> !IsMarker(refs[j])
  }

  /** `refs[i]` is the first Branch or RemoteBranch ref of the list. */
  predicate IsFirstBranchLike(refs: seq<RefInfo>, i: int) {
    0 <= i < |refs| && IsBranchLike(refs[i]) && forall j :: 0 <= j < i ==> !IsBranchLike(refs[j])
  }

  /**
   * `determine_node_type`: the first ref, in list order, that is a Head or a Stash decides;
   * without one the node is Normal. WorkingTree is never produced here.
   */
  function DetermineNodeType(refs: seq<RefInfo>): (t: NodeType)
    ensures t != NodeType.WorkingTree
    ensures t == NodeType.Normal <==> forall i :: 0 <= i < |refs| ==> !IsMarker(refs[i])
    ensures forall i :: IsFirstMarker(refs, i) ==>
      t == (if refs[i].refType == RefType.Head then NodeType.Head else NodeType.Stash)
  {
    if refs == [] then NodeType.Normal
    else if refs[0].refType == RefType.Head then NodeType.Head
    else if refs[0].refType == RefType.Stash then NodeType.Stash
    else
      var t := DetermineNodeType(refs[1..]);
      assert forall i :: 1 <= i < |refs| ==> refs[i] == refs[1..][i - 1];
      t
  }

  /** The name of the first Branch or RemoteBranch ref, if any. */
  function FirstBranchName(refs: seq<RefInfo>): (r: Option<string>)
    ensures r.None? <==> forall i :: 0 <= i < |refs| ==> !IsBranchLike(refs[i])
    ensures forall i :: IsFirstBranchLike(refs, i) ==> r == Some(refs[i].name)
  {
    if refs == [] then None
    else if IsBranchLike(refs[0]) then Some(refs[0].name)
    else
      var r := FirstBranchName(refs[1..]);
      assert forall i :: 1 <= i < |refs| ==> refs[i] == refs[1..][i - 1];
      r
  }

  predicate ColorsInPalette(laneColors: map<int, nat>) {
    forall l :: l in laneColors ==> laneColors[l] < PaletteSize
  }

  /**
   * `determine_color_index`: the hash of the first branch-like ref's name; otherwise the colour
   * recorded for the lane; otherwise the hash of the sha.
   */
  function DetermineColorIndex(commit: CommitNode, laneColors: map<int, nat>, parentLane: Option<int>): (c: nat)
    ensures ColorsInPalette(laneColors) ==> c < PaletteSize
    ensures forall i :: IsFirstBranchLike(commit.refs, i) ==> c == BranchColor(commit.refs[i].name)
    ensures (forall i :: 0 <= i < |commit.refs| ==> !IsBranchLike(commit.refs[i])) ==>
      c == (if parentLane.Some? && parentLane.value in laneColors then laneColors[parentLane.value]
            else BranchColor(commit.sha))
  {
    var first := FirstBranchName(commit.refs);
    if first.Some? then BranchColor(first.value)
    else if parentLane.Some? && parentLane.value in laneColors then
      var l := parentLane.value;
      assert ColorsInPalette(laneColors) ==> laneColors[l] < PaletteSize;
      laneColors[l]
    else BranchColor(commit.sha)
  }

  // ---------------------------------------------------------------------------
  // The lane table: allocate_lane, free_lane
  // ---------------------------------------------------------------------------

  /** Index of the lowest inactive lane, or the length when every lane is active. */
  function FirstFree(active: seq<bool>): (r: nat)
    ensures r <= |active|
    ensures forall k :: 0 <= k < r ==> active[k]
    ensures r < |active| ==> !active[r]
  {
    if active == [] || !active[0] then 0 else 1 + FirstFree(active[1..])
  }

  /** The lane vector after marking `lane` active, appending it when it is one past the end. */
  function Occupy(active: seq<bool>, lane: nat): seq<bool>
    requires lane <= |active|
  {
    if lane < |active| then active[lane := true] else active + [true]
  }

  /** The lane vector after clearing `lane`; a lane outside the vector changes nothing. */
  function Release(active: seq<bool>, lane: int): seq<bool> {
    if 0 <= lane < |active| then active[lane := false] else active
  }

  /** `allocate_lane`: take the lowest inactive lane, or append a new one; it is then active. */
  method AllocateLane(active: seq<bool>) returns (lane: nat, active': seq<bool>)
    ensures lane <= |active|
    ensures forall k :: 0 <= k < lane ==> active[k]
    ensures lane < |active| ==> !active[lane]
    ensures |active'| == (if lane < |active| then |active| else |active| + 1)
    ensures active'[lane]
    ensures forall k :: 0 <= k < |active| && k != lane ==> active'[k] == active[k]
    ensures lane == FirstFree(active) && active' == Occupy(active, lane)
  {
    var i := 0;
    while i < |active|
      invariant 0 <= i <= |active|
      invariant forall k :: 0 <= k < i ==> active[k]
    {
      if !active[i] {
        lane, active' := i, active[i := true];
        return;
      }
      i := i + 1;
    }
    lane, active' := |active|, active + [true];
  }

  /** `free_lane`: clears exactly the given lane; out of range it is a no-op. */
  method FreeLane(active: seq<bool>, lane: int) returns (active': seq<bool>)
    ensures |active'| == |active|
    ensures forall k :: 0 <= k < |active| ==> active'[k] == (active[k] && k != lane)
    ensures active' == Release(active, lane)
  {
    active' := active;
    if 0 <= lane < |active| {
      active' := active'[lane := false];
    }
  }

  /**
   * The state `compute_layout` carries from row to row: which lanes are occupied, which sha
   * has a lane reserved for it, and the last colour given to each lane.
   */
  datatype LaneTable = LaneTable(active: seq<bool>, shaLane: map<string, int>, laneColors: map<int, nat>)

  /**
   * Every pending sha owns a lane of its own that is marked active, and every recorded lane
   * colour is a palette index.
   */
  ghost predicate ValidTable(t: LaneTable) {
    && (forall s :: s in t.shaLane ==> 0 <= t.shaLane[s] < |t.active| && t.active[t.shaLane[s]])
    && (forall s, u :: s in t.shaLane && u in t.shaLane && s != u ==> t.shaLane[s] != t.shaLane[u])
    && ColorsInPalette(t.laneColors)
  }

  // ---------------------------------------------------------------------------
  // One row of compute_layout
  // ---------------------------------------------------------------------------

  /** The node of row `row` carries the commit's identity and metadata and its node type. */
  ghost predicate NodeFor(node: LayoutNode, commit: CommitNode, row: int) {
    && node.sha == commit.sha
    && node.shortSha == commit.shortSha
    && node.row == row
    && node.subject == commit.subject
    && node.authorName == commit.authorName
    && node.authorDate == commit.authorDate
    && node.refs == commit.refs
    && node.parents == commit.parents
    && node.nodeType == DetermineNodeType(commit.refs)
    && node.lane >= 0
    && node.colorIndex < PaletteSize
    && (forall i :: IsFirstBranchLike(commit.refs, i) ==> node.colorIndex == BranchColor(commit.refs[i].name))
  }

  /** The kind of the edge to parent number `j`: Normal for the first parent, Merge after. */
  function KindOf(j: nat): EdgeType {
    if j == 0 then EdgeType.Normal else EdgeType.Merge
  }

  /** Edge to parent `j` of `commit`, emitted at row `row` from lane `lane`, still unresolved. */
  ghost predicate PendingEdgeFor(e: Edge, commit: CommitNode, row: int, lane: int, j: nat)
    requires j < |commit.parents|
  {
    && e.fromSha == commit.sha
    && e.toSha == commit.parents[j]
    && e.fromRow == row
    && e.fromLane == lane
    && e.toRow == -1
    && e.toLane >= 0
    && e.edgeType == KindOf(j)
    && e.colorIndex < PaletteSize
  }

  /** The colour recorded for lane `l`, or `fallback` when none is recorded. */
  function LaneColorOr(colors: map<int, nat>, l: int, fallback: nat): nat {
    if l in colors then colors[l] else fallback
  }

  /**
   * The table once the commit `sha` holds its lane with colour `color` recorded for it: the
   * lane reserved for the sha, or else the lowest free lane, newly reserved.
   */
  function Held(t: LaneTable, sha: string, color: nat): LaneTable {
    if sha in t.shaLane then t.(laneColors := t.laneColors[t.shaLane[sha] := color])
    else
      var l := FirstFree(t.active);
      LaneTable(Occupy(t.active, l), t.shaLane[sha := l], t.laneColors[l := color])
  }

  /**
   * The table after the commit `sha` on `lane` is linked to its first parent `first`: a pending
   * parent keeps its own lane and the commit's lane is released; any other parent inherits
   * the commit's lane. The commit's own reservation is dropped either way.
   */
  function FollowTable(t: LaneTable, sha: string, first: string, lane: int): LaneTable {
    if first in t.shaLane then t.(active := Release(t.active, lane), shaLane := t.shaLane - {sha})
    else t.(shaLane := (t.shaLane - {sha})[first := lane])
  }

  /**
   * The Normal edge to the first parent: to the parent's lane in the lane's recorded colour
   * (or the commit's colour when none is recorded) when the parent is pending, and straight
   * down the commit's lane in the commit's colour otherwise.
   */
  function FollowEdge(t: LaneTable, sha: string, first: string, row: int, lane: int, colorIndex: nat): Edge {
    if first in t.shaLane then
      var parentLane := t.shaLane[first];
      Edge(sha, first, lane, parentLane, row, -1, EdgeType.Normal, LaneColorOr(t.laneColors, parentLane, colorIndex))
    else Edge(sha, first, lane, lane, row, -1, EdgeType.Normal, colorIndex)
  }

  /**
   * The table after one merge parent: a pending parent changes nothing; any other parent is
   * given the lowest free lane, coloured by the hash of the parent's sha.
   */
  function MergeStep(t: LaneTable, parent: string): LaneTable {
    if parent in t.shaLane then t
    else
      var l := FirstFree(t.active);
      LaneTable(Occupy(t.active, l), t.shaLane[parent := l], t.laneColors[l := BranchColor(parent)])
  }

  /**
   * The Merge edge to one merge parent: to its lane in that lane's recorded colour (or the
   * commit's colour) when it is pending, and to the lowest free lane in the hash colour of
   * its sha otherwise.
   */
  function MergeEdge(t: LaneTable, sha: string, parent: string, row: int, lane: int, colorIndex: nat): Edge {
    if parent in t.shaLane then
      var parentLane := t.shaLane[parent];
      Edge(sha, parent, lane, parentLane, row, -1, EdgeType.Merge, LaneColorOr(t.laneColors, parentLane, colorIndex))
    else Edge(sha, parent, lane, FirstFree(t.active), row, -1, EdgeType.Merge, BranchColor(parent))
  }

  /** The table after the merge parents `parents`, taken in order. */
  function MergeTable(t: LaneTable, parents: seq<string>): LaneTable {
    if parents == [] then t
    else MergeStep(MergeTable(t, parents[..|parents| - 1]), parents[|parents| - 1])
  }

  /** The edges to the merge parents `parents`, in order, each drawn against the table before it. */
  function MergeEdges(t: LaneTable, sha: string, parents: seq<string>, row: int, lane: int, colorIndex: nat): seq<Edge> {
    if parents == [] then []
    else
      var init := parents[..|parents| - 1];
      MergeEdges(t, sha, init, row, lane, colorIndex)
        + [MergeEdge(MergeTable(t, init), sha, parents[|parents| - 1], row, lane, colorIndex)]
  }

  /** The table after the parent half of a row, once the commit holds `lane`. */
  function LinkTable(t: LaneTable, commit: CommitNode, lane: int): LaneTable {
    if commit.parents == [] then t.(active := Release(t.active, lane), shaLane := t.shaLane - {commit.sha})
    else MergeTable(FollowTable(t, commit.sha, commit.parents[0], lane), commit.parents[1..])
  }

  /** The edges of the parent half of a row: the first parent's, then the merge parents'. */
  function LinkEdges(t: LaneTable, commit: CommitNode, row: int, lane: int, colorIndex: nat): seq<Edge> {
    if commit.parents == [] then []
    else
      [FollowEdge(t, commit.sha, commit.parents[0], row, lane, colorIndex)]
        + MergeEdges(FollowTable(t, commit.sha, commit.parents[0], lane), commit.sha, commit.parents[1..], row, lane, colorIndex)
  }

  /**
   * The node of row `row` for `commit`, laid out against table `t`: on the lane reserved for
   * its sha or else the lowest free lane, in the colour `determine_color_index` picks for it.
   */
  function RowNode(t: LaneTable, row: int, commit: CommitNode): LayoutNode {
    var lane := if commit.sha in t.shaLane then t.shaLane[commit.sha] else FirstFree(t.active);
    LayoutNode(commit.sha, commit.shortSha, lane, row, DetermineColorIndex(commit, t.laneColors, Some(lane)),
               commit.subject, commit.authorName, commit.authorDate, commit.refs, commit.parents,
               DetermineNodeType(commit.refs))
  }

  /**
   * The lane the commit takes: the lane reserved for its sha, or else a newly allocated one,
   * which is then reserved for it.
   */
  method ClaimLane(t: LaneTable, sha: string) returns (lane: nat, t': LaneTable)
    requires ValidTable(t)
    ensures ValidTable(t')
    ensures lane == if sha in t.shaLane then t.shaLane[sha] else FirstFree(t.active)
    ensures t'.shaLane == t.shaLane[sha := lane]
    ensures t'.active == if sha in t.shaLane then t.active else Occupy(t.active, lane)
    ensures t'.laneColors == t.laneColors
  {
    if sha in t.shaLane {
      lane, t' := t.shaLane[sha], t;
      assert t.shaLane[sha := lane] == t.shaLane;
    } else {
      var active;
      lane, active := AllocateLane(t.active);
      t' := t.(active := active, shaLane := t.shaLane[sha := lane]);
    }
  }

  /**
   * The first parent: when it is already pending, the edge goes to its lane and the commit's
   * own lane is released; otherwise the first parent inherits the commit's lane.
   */
  method FollowFirstParent(t: LaneTable, commit: CommitNode, row: int, lane: nat, colorIndex: nat)
    returns (t': LaneTable, e: Edge)
    requires ValidTable(t)
    requires |commit.parents| >= 1
    requires commit.sha in t.shaLane && t.shaLane[commit.sha] == lane
    requires colorIndex < PaletteSize
    ensures ValidTable(t')
    ensures PendingEdgeFor(e, commit, row, lane, 0)
    ensures t'.laneColors == t.laneColors
    ensures e.toSha != commit.sha ==> e.toSha in t'.shaLane && e.toLane == t'.shaLane[e.toSha]
    ensures commit.parents[0] in t.shaLane ==>
      t'.active == Release(t.active, lane) && t'.shaLane == t.shaLane - {commit.sha}
    ensures commit.parents[0] !in t.shaLane ==>
      e.toLane == lane && t'.active == t.active && t'.shaLane == (t.shaLane - {commit.sha})[commit.parents[0] := lane]

    ensures t' == FollowTable(t, commit.sha, commit.parents[0], lane)
    ensures e == FollowEdge(t, commit.sha, commit.parents[0], row, lane, colorIndex)
  {
    var first := commit.parents[0];
    if first in t.shaLane {
      var parentLane := t.shaLane[first];
      var color := if parentLane in t.laneColors then t.laneColors[parentLane] else colorIndex;
      e := Edge(commit.sha, first, lane, parentLane, row, -1, EdgeType.Normal, color);
      var active := FreeLane(t.active, lane);
      t' := t.(active := active, shaLane := t.shaLane - {commit.sha});
    } else {
      e := Edge(commit.sha, first, lane, lane, row, -1, EdgeType.Normal, colorIndex);
      t' := t.(shaLane := (t.shaLane - {commit.sha})[first := lane]);
    }
  }

  /** Reserving the lowest free lane for a sha not yet pending keeps the table valid. */
  lemma ReserveFreeLane(t: LaneTable, sha: string, lane: nat, color: nat)
    requires ValidTable(t) && sha !in t.shaLane && lane == FirstFree(t.active) && color < PaletteSize
    ensures ValidTable(LaneTable(Occupy(t.active, lane), t.shaLane[sha := lane], t.laneColors[lane := color]))
  {
    var t' := LaneTable(Occupy(t.active, lane), t.shaLane[sha := lane], t.laneColors[lane := color]);
    forall s | s in t.shaLane
      ensures t.shaLane[s] != lane && t'.active[t.shaLane[s]]
    {
    }
  }

  /**
   * One merge parent (`parents[j]`, `j >= 1`): a parent already pending gets an edge to its
   * lane; any other parent is given a newly allocated lane, coloured by the hash of its sha.
   */
  method ReserveMergeParent(t: LaneTable, commit: CommitNode, row: int, lane: int, colorIndex: nat, j: nat)
    returns (t': LaneTable, e: Edge)
    requires ValidTable(t)
    requires 1 <= j < |commit.parents|
    requires colorIndex < PaletteSize
    ensures ValidTable(t')
    ensures PendingEdgeFor(e, commit, row, lane, j)
    ensures e.toSha in t'.shaLane && e.toLane == t'.shaLane[e.toSha]
    ensures forall s :: s in t.shaLane ==> s in t'.shaLane && t'.shaLane[s] == t.shaLane[s]
    ensures t' == MergeStep(t, commit.parents[j])
    ensures e == MergeEdge(t, commit.sha, commit.parents[j], row, lane, colorIndex)
  {
    var parent := commit.parents[j];
    if parent in t.shaLane {
      var parentLane := t.shaLane[parent];
      var color := if parentLane in t.laneColors then t.laneColors[parentLane] else colorIndex;
      e := Edge(commit.sha, parent, lane, parentLane, row, -1, EdgeType.Merge, color);
      t' := t;
    } else {
      var mergeLane, active := AllocateLane(t.active);
      var mergeColor := HashBranchName(parent);
      ReserveFreeLane(t, parent, mergeLane, mergeColor);
      t' := LaneTable(active, t.shaLane[parent := mergeLane], t.laneColors[mergeLane := mergeColor]);
      e := Edge(commit.sha, parent, lane, mergeLane, row, -1, EdgeType.Merge, mergeColor);
    }
  }

  /** The loop over merge parents (`parents[1..]`). Reservations only grow. */
  method ReserveMergeParents(t: LaneTable, commit: CommitNode, row: int, lane: int, colorIndex: nat)
    returns (t': LaneTable, es: seq<Edge>)
    requires ValidTable(t)
    requires |commit.parents| >= 1
    requires colorIndex < PaletteSize
    ensures ValidTable(t')
    ensures |es| == |commit.parents| - 1
    ensures forall k :: 0 <= k < |es| ==> PendingEdgeFor(es[k], commit, row, lane, k + 1)
    ensures forall k :: 0 <= k < |es| ==> es[k].toSha in t'.shaLane && es[k].toLane == t'.shaLane[es[k].toSha]
    ensures forall s :: s in t.shaLane ==> s in t'.shaLane && t'.shaLane[s] == t.shaLane[s]
    ensures |commit.parents| == 1 ==> t' == t
    ensures t' == MergeTable(t, commit.parents[1..])
    ensures es == MergeEdges(t, commit.sha, commit.parents[1..], row, lane, colorIndex)
  {
    t' := t;
    es := [];
    for j := 1 to |commit.parents|
      invariant MergedUpTo(t, commit, row, lane, colorIndex, j, t', es)
    {
      t', es := ReserveNextMergeParent(t, commit, row, lane, colorIndex, j, t', es);
    }
    assert commit.parents[1..|commit.parents|] == commit.parents[1..];
  }

  /** The state of the merge-parent loop once `parents[1..j]` are reserved. */
  ghost predicate MergedUpTo(t: LaneTable, commit: CommitNode, row: int, lane: int, colorIndex: nat, j: nat,
                             t': LaneTable, es: seq<Edge>)
  {
    && 1 <= j <= |commit.parents|
    && ValidTable(t')
    && |es| == j - 1
    && (forall k :: 0 <= k < |es| ==> PendingEdgeFor(es[k], commit, row, lane, k + 1))
    && (forall k :: 0 <= k < |es| ==> es[k].toSha in t'.shaLane && es[k].toLane == t'.shaLane[es[k].toSha])
    && (forall s :: s in t.shaLane ==> s in t'.shaLane && t'.shaLane[s] == t.shaLane[s])
    && t' == MergeTable(t, commit.parents[1..j])
    && es == MergeEdges(t, commit.sha, commit.parents[1..j], row, lane, colorIndex)
  }

  /** One iteration of the merge-parent loop: reserve `parents[j]` and append its edge. */
  method ReserveNextMergeParent(t: LaneTable, commit: CommitNode, row: int, lane: int, colorIndex: nat, j: nat,
                                cur: LaneTable, es: seq<Edge>)
    returns (next: LaneTable, es': seq<Edge>)
    requires j < |commit.parents| && colorIndex < PaletteSize
    requires MergedUpTo(t, commit, row, lane, colorIndex, j, cur, es)
    ensures MergedUpTo(t, commit, row, lane, colorIndex, j + 1, next, es')
  {
    var e;
    next, e := ReserveMergeParent(cur, commit, row, lane, colorIndex, j);
    MergeSnoc(t, commit.sha, commit.parents, j, row, lane, colorIndex);
    ExtendMerged(t, commit, row, lane, j, cur, next, es, e);
    es' := es + [e];
  }

  /** The edge to merge parent `j` extends the edges of the loop, which keep their targets' lanes. */
  lemma ExtendMerged(t: LaneTable, commit: CommitNode, row: int, lane: int, j: nat,
                     cur: LaneTable, next: LaneTable, es: seq<Edge>, e: Edge)
    requires 1 <= j < |commit.parents| && |es| == j - 1
    requires forall k :: 0 <= k < |es| ==> PendingEdgeFor(es[k], commit, row, lane, k + 1)
    requires forall k :: 0 <= k < |es| ==> es[k].toSha in cur.shaLane && es[k].toLane == cur.shaLane[es[k].toSha]
    requires forall s :: s in t.shaLane ==> s in cur.shaLane && cur.shaLane[s] == t.shaLane[s]
    requires PendingEdgeFor(e, commit, row, lane, j)
    requires e.toSha in next.shaLane && e.toLane == next.shaLane[e.toSha]
    requires forall s :: s in cur.shaLane ==> s in next.shaLane && next.shaLane[s] == cur.shaLane[s]
    ensures forall k :: 0 <= k < |es + [e]| ==> PendingEdgeFor((es + [e])[k], commit, row, lane, k + 1)
    ensures forall k :: 0 <= k < |es + [e]| ==>
      (es + [e])[k].toSha in next.shaLane && (es + [e])[k].toLane == next.shaLane[(es + [e])[k].toSha]
    ensures forall s :: s in t.shaLane ==> s in next.shaLane && next.shaLane[s] == t.shaLane[s]
  {
    forall k | 0 <= k < |es + [e]|
      ensures (es + [e])[k] == if k < |es| then es[k] else e
    {
    }
  }

  /** Taking merge parent `j` extends the merge fold over `parents[1..j]` by one step. */
  lemma MergeSnoc(t: LaneTable, sha: string, parents: seq<string>, j: nat, row: int, lane: int, colorIndex: nat)
    requires 1 <= j < |parents|
    ensures MergeTable(t, parents[1..j + 1]) == MergeStep(MergeTable(t, parents[1..j]), parents[j])
    ensures MergeEdges(t, sha, parents[1..j + 1], row, lane, colorIndex)
      == MergeEdges(t, sha, parents[1..j], row, lane, colorIndex)
         + [MergeEdge(MergeTable(t, parents[1..j]), sha, parents[j], row, lane, colorIndex)]
  {
    var done := parents[1..j + 1];
    assert done[..|done| - 1] == parents[1..j];
  }

  /**
   * Merge reservations only take free lanes: every lane occupied before the merge parents
   * stays occupied and keeps its recorded colour.
   */
  lemma {:induction false} MergeKeepsOccupied(t: LaneTable, parents: seq<string>)
    ensures forall l :: 0 <= l < |t.active| && t.active[l] ==>
      l < |MergeTable(t, parents).active| && MergeTable(t, parents).active[l]
      && (l in t.laneColors ==> l in MergeTable(t, parents).laneColors
                                 && MergeTable(t, parents).laneColors[l] == t.laneColors[l])
  {
    if parents != [] {
      var init := parents[..|parents| - 1];
      MergeKeepsOccupied(t, init);
      var m := MergeTable(t, init);
      var free := FirstFree(m.active);
      assert forall l :: 0 <= l < |m.active| && m.active[l] ==> l != free;
    }
  }

  /**
   * The parent half of a row frees at most the commit's own lane, and only when the commit
   * has no parents or its first parent is already pending.
   */
  lemma LinkFreesOnlyOwnLane(t: LaneTable, commit: CommitNode, lane: int)
    ensures forall l :: 0 <= l < |t.active| && t.active[l] && !(l < |LinkTable(t, commit, lane).active| && LinkTable(t, commit, lane).active[l]) ==>
      l == lane && (commit.parents == [] || commit.parents[0] in t.shaLane)
  {
    var after := LinkTable(t, commit, lane);
    if commit.parents != [] {
      var followed := FollowTable(t, commit.sha, commit.parents[0], lane);
      assert followed.active == if commit.parents[0] in t.shaLane then Release(t.active, lane) else t.active;
      MergeKeepsOccupied(followed, commit.parents[1..]);
      assert after == MergeTable(followed, commit.parents[1..]);
      forall l | 0 <= l < |t.active| && t.active[l] && !(l < |after.active| && after.active[l])
        ensures l == lane && commit.parents[0] in t.shaLane
      {
        assert !followed.active[l];
      }
    } else {
      assert after.active == Release(t.active, lane);
    }
  }

  /** Whether the commit's first parent inherits its lane: that parent is not yet pending. */
  ghost predicate Continues(t: LaneTable, commit: CommitNode) {
    |commit.parents| >= 1 && commit.parents[0] !in t.shaLane && commit.parents[0] != commit.sha
  }

  /**
   * The table after the parent half of a row of a commit with at most one parent: its lane
   * passes to the parent when the parent continues it, and is released otherwise.
   */
  lemma LinkTableSingle(t: LaneTable, commit: CommitNode, lane: int)
    requires commit.sha in t.shaLane && |commit.parents| <= 1
    ensures LinkTable(t, commit, lane).shaLane ==
      if Continues(t, commit) then (t.shaLane - {commit.sha})[commit.parents[0] := lane] else t.shaLane - {commit.sha}
    ensures LinkTable(t, commit, lane).active == if Continues(t, commit) then t.active else Release(t.active, lane)
  {
    if |commit.parents| == 1 {
      assert commit.parents[1..] == [];
    }
  }

  /**
   * The parent half of a row, once the commit holds `lane`: a commit without parents releases
   * its lane; otherwise its first parent is followed and its merge parents reserved, one edge
   * per parent.
   */
  method LinkParents(t: LaneTable, commit: CommitNode, row: int, lane: nat, colorIndex: nat)
    returns (t': LaneTable, es: seq<Edge>)
    requires ValidTable(t)
    requires commit.sha in t.shaLane && t.shaLane[commit.sha] == lane
    requires colorIndex < PaletteSize
    ensures ValidTable(t')
    ensures |es| == |commit.parents|
    ensures forall j :: 0 <= j < |es| ==> PendingEdgeFor(es[j], commit, row, lane, j)
    ensures forall j :: 0 <= j < |es| && es[j].toSha != commit.sha ==>
      es[j].toSha in t'.shaLane && es[j].toLane == t'.shaLane[es[j].toSha]
    ensures Continues(t, commit) ==> es[0].toLane == lane
    ensures |commit.parents| <= 1 ==>
      t'.shaLane == if Continues(t, commit) then (t.shaLane - {commit.sha})[commit.parents[0] := lane]
                    else t.shaLane - {commit.sha}
    ensures |commit.parents| <= 1 ==>
      t'.active == if Continues(t, commit) then t.active else Release(t.active, lane)
    ensures t' == LinkTable(t, commit, lane)
    ensures es == LinkEdges(t, commit, row, lane, colorIndex)
  {
    if commit.parents == [] {
      var active := FreeLane(t.active, lane);
      t', es := t.(active := active, shaLane := t.shaLane - {commit.sha}), [];
    } else {
      var followed, e := FollowFirstParent(t, commit, row, lane, colorIndex);
      var merged;
      t', merged := ReserveMergeParents(followed, commit, row, lane, colorIndex);
      es := [e] + merged;
      JoinEdges(t', commit, row, lane, e, merged);
    }
    if |commit.parents| <= 1 {
      LinkTableSingle(t, commit, lane);
    }
  }

  /** The first parent's edge followed by the merge parents' edges is one pending edge per parent. */
  lemma JoinEdges(t': LaneTable, commit: CommitNode, row: int, lane: int, e: Edge, merged: seq<Edge>)
    requires |commit.parents| >= 1 && |merged| == |commit.parents| - 1
    requires PendingEdgeFor(e, commit, row, lane, 0)
    requires e.toSha != commit.sha ==> e.toSha in t'.shaLane && e.toLane == t'.shaLane[e.toSha]
    requires forall k :: 0 <= k < |merged| ==> PendingEdgeFor(merged[k], commit, row, lane, k + 1)
    requires forall k :: 0 <= k < |merged| ==> merged[k].toSha in t'.shaLane && merged[k].toLane == t'.shaLane[merged[k].toSha]
    ensures forall j :: 0 <= j < |[e] + merged| ==> PendingEdgeFor(([e] + merged)[j], commit, row, lane, j)
    ensures forall j :: 0 <= j < |[e] + merged| && ([e] + merged)[j].toSha != commit.sha ==>
      ([e] + merged)[j].toSha in t'.shaLane && ([e] + merged)[j].toLane == t'.shaLane[([e] + merged)[j].toSha]
  {
    var es := [e] + merged;
    assert forall j :: 1 <= j < |es| ==> es[j] == merged[j - 1];
  }

  /**
   * One iteration of the row loop of `compute_layout`. The commit takes its reserved lane or
   * the lowest free one; its node is emitted; its first parent inherits the lane unless that
   * parent is already pending, in which case the commit's lane is released; a commit without
   * parents releases its lane; each parent gets one edge.
   */
  method ProcessCommit(t: LaneTable, row: int, commit: CommitNode)
    returns (t': LaneTable, node: LayoutNode, es: seq<Edge>)
    requires ValidTable(t)
    ensures ValidTable(t')
    ensures NodeFor(node, commit, row)
    ensures node.lane == if commit.sha in t.shaLane then t.shaLane[commit.sha] else FirstFree(t.active)
    ensures node.colorIndex == DetermineColorIndex(commit, t.laneColors, Some(node.lane))
    ensures |es| == |commit.parents|
    ensures forall j :: 0 <= j < |es| ==> PendingEdgeFor(es[j], commit, row, node.lane, j)
    // every parent other than the commit itself is pending afterwards, on the lane its edge names
    ensures forall j :: 0 <= j < |es| && es[j].toSha != commit.sha ==>
      es[j].toSha in t'.shaLane && es[j].toLane == t'.shaLane[es[j].toSha]
    // mainline continuity
    ensures Continues(t, commit) ==> es[0].toLane == node.lane
    // the complete new lane state of a commit with at most one parent
    ensures |commit.parents| <= 1 ==>
      t'.shaLane == if Continues(t, commit) then (t.shaLane - {commit.sha})[commit.parents[0] := node.lane]
                    else t.shaLane - {commit.sha}
    ensures |commit.parents| <= 1 ==>
      var held := if commit.sha in t.shaLane then t.active else Occupy(t.active, node.lane);
      t'.active == if Continues(t, commit) then held else Release(held, node.lane)

    // the complete new lane state and edge list of any commit
    ensures t' == LinkTable(Held(t, commit.sha, node.colorIndex), commit, node.lane)
    ensures es == LinkEdges(Held(t, commit.sha, node.colorIndex), commit, row, node.lane, node.colorIndex)
    ensures node == RowNode(t, row, commit)
  {
    var lane, claimed := ClaimLane(t, commit.sha);
    var colorIndex := DetermineColorIndex(commit, claimed.laneColors, Some(lane));
    var colored := claimed.(laneColors := claimed.laneColors[lane := colorIndex]);
    var nodeType := DetermineNodeType(commit.refs);
    node := LayoutNode(commit.sha, commit.shortSha, lane, row, colorIndex, commit.subject,
                       commit.authorName, commit.authorDate, commit.refs, commit.parents, nodeType);
    assert node == RowNode(t, row, commit);
    RowNodeFor(t, row, commit);
    assert colored == Held(t, commit.sha, colorIndex);
    assert Continues(colored, commit) == Continues(t, commit);
    t', es := LinkParents(colored, commit, row, lane, colorIndex);
    if |commit.parents| <= 1 {
      HeldLinkSingle(t, commit, lane, colorIndex);
    }
  }

  /** The node `RowNode` lays out carries the commit, on a lane that is a real lane, in a palette colour. */
  lemma RowNodeFor(t: LaneTable, row: int, commit: CommitNode)
    requires ValidTable(t)
    ensures NodeFor(RowNode(t, row, commit), commit, row)
    ensures RowNode(t, row, commit).colorIndex == DetermineColorIndex(commit, t.laneColors, Some(RowNode(t, row, commit).lane))
  {
  }

  /**
   * A commit with at most one parent, holding `lane` in `Held(t, ...)`: its parent half leaves
   * the table of `t` without the commit, its lane passed on or released.
   */
  lemma HeldLinkSingle(t: LaneTable, commit: CommitNode, lane: nat, color: nat)
    requires |commit.parents| <= 1
    requires ValidTable(t) && lane == if commit.sha in t.shaLane then t.shaLane[commit.sha] else FirstFree(t.active)
    ensures LinkTable(Held(t, commit.sha, color), commit, lane).shaLane ==
      if Continues(t, commit) then (t.shaLane - {commit.sha})[commit.parents[0] := lane] else t.shaLane - {commit.sha}
    ensures var held := if commit.sha in t.shaLane then t.active else Occupy(t.active, lane);
      LinkTable(Held(t, commit.sha, color), commit, lane).active == if Continues(t, commit) then held else Release(held, lane)
  {
    var h := Held(t, commit.sha, color);
    assert h.shaLane - {commit.sha} == t.shaLane - {commit.sha};
    assert Continues(h, commit) == Continues(t, commit);
    LinkTableSingle(h, commit, lane);
  }

  // ---------------------------------------------------------------------------
  // The shape of the edge list
  // ---------------------------------------------------------------------------

  /** The edge the layout owes to parent number `index` of the commit at row `from`. */
  datatype Link = Link(from: nat, index: nat, to: string, kind: EdgeType)

  function LinksOf(i: nat, parents: seq<string>): (ls: seq<Link>)
    ensures |ls| == |parents|
    ensures forall j :: 0 <= j < |parents| ==> ls[j] == Link(i, j, parents[j], KindOf(j))
  {
    seq(|parents|, j requires 0 <= j < |parents| => Link(i, j, parents[j], KindOf(j)))
  }

  /** The links of the first `n` commits, row by row, each row's parents in order. */
  function LinksUpTo(commits: seq<CommitNode>, n: nat): seq<Link>
    requires n <= |commits|
  {
    if n == 0 then [] else LinksUpTo(commits, n - 1) + LinksOf(n - 1, commits[n - 1].parents)
  }

  function Links(commits: seq<CommitNode>): seq<Link> {
    LinksUpTo(commits, |commits|)
  }

  /** Total number of parents of the first `n` commits. */
  function ParentCount(commits: seq<CommitNode>, n: nat): nat
    requires n <= |commits|
  {
    if n == 0 then 0 else ParentCount(commits, n - 1) + |commits[n - 1].parents|
  }

  /**
   * The links come row by row, each row's parents in order: parent `j` of row `i` sits at
   * position `ParentCount(commits, i) + j`, and there are as many links as parents.
   */
  lemma {:induction false} LinkPosition(commits: seq<CommitNode>, n: nat, i: nat, j: nat)
    requires n <= |commits| && i < n && j < |commits[i].parents|
    ensures |LinksUpTo(commits, n)| == ParentCount(commits, n)
    ensures ParentCount(commits, i) + j < ParentCount(commits, n)
    ensures LinksUpTo(commits, n)[ParentCount(commits, i) + j] ==
      Link(i, j, commits[i].parents[j], KindOf(j))
  {
    LinksCount(commits, n - 1);
    if i < n - 1 {
      LinkPosition(commits, n - 1, i, j);
    }
  }

  lemma {:induction false} LinksCount(commits: seq<CommitNode>, n: nat)
    requires n <= |commits|
    ensures |LinksUpTo(commits, n)| == ParentCount(commits, n)
  {
    if n > 0 {
      LinksCount(commits, n - 1);
    }
  }

  /** Every link comes from a row of the input and names that commit's parent at its index. */
  lemma {:induction false} LinksWellFormed(commits: seq<CommitNode>, n: nat)
    requires n <= |commits|
    ensures forall k :: 0 <= k < |LinksUpTo(commits, n)| ==>
      var l := LinksUpTo(commits, n)[k];
      l.from < n && l.index < |commits[l.from].parents| &&
      l.to == commits[l.from].parents[l.index] && l.kind == KindOf(l.index)
  {
    if n > 0 {
      LinksWellFormed(commits, n - 1);
    }
  }

  // ---------------------------------------------------------------------------
  // Second pass
  // ---------------------------------------------------------------------------

  /** The row an edge to `sha` resolves to: the row of that sha in the input, or -1. */
  function TargetRow(commits: seq<CommitNode>, sha: string): int {
    var index := RowIndex(commits);
    if sha in index then index[sha] else -1
  }

  /**
   * `e` after the second pass: `to_row` from the sha-to-row map when the target is there, and
   * then `to_lane` from the node at that row; everything else unchanged.
   */
  function Resolve(e: Edge, index: map<string, int>, nodes: seq<LayoutNode>): Edge {
    var toRow := if e.toSha in index then index[e.toSha] else e.toRow;
    e.(toRow := toRow, toLane := if 0 <= toRow < |nodes| then nodes[toRow].lane else e.toLane)
  }

  /** The second pass of `compute_layout`, patching each edge in place. */
  method ResolveEdges(commits: seq<CommitNode>, nodes: seq<LayoutNode>, edges: seq<Edge>)
    returns (resolved: seq<Edge>)
    ensures |resolved| == |edges|
    ensures forall k :: 0 <= k < |edges| ==> resolved[k] == Resolve(edges[k], RowIndex(commits), nodes)
  {
    var shaToRow := RowIndex(commits);
    resolved := edges;
    for k := 0 to |edges|
      invariant |resolved| == |edges|
      invariant forall m :: 0 <= m < k ==> resolved[m] == Resolve(edges[m], shaToRow, nodes)
      invariant forall m :: k <= m < |edges| ==> resolved[m] == edges[m]
    {
      var e := resolved[k];
      if e.toSha in shaToRow {
        e := e.(toRow := shaToRow[e.toSha]);
      }
      if 0 <= e.toRow < |nodes| {
        e := e.(toLane := nodes[e.toRow].lane);
      }
      resolved := resolved[k := e];
    }
  }

  // ---------------------------------------------------------------------------
  // compute_layout
  // ---------------------------------------------------------------------------

  /** The edge for link `l`, from its commit's node to the row and lane of its target. */
  ghost predicate EdgeForLink(e: Edge, l: Link, commits: seq<CommitNode>, nodes: seq<LayoutNode>)
    requires |nodes| == |commits|
  {
    && l.from < |commits|
    && e.fromSha == commits[l.from].sha
    && e.fromRow == l.from
    && e.fromLane == nodes[l.from].lane
    && e.toSha == l.to
    && e.edgeType == l.kind
    && e.colorIndex < PaletteSize
    && e.toRow == TargetRow(commits, l.to)
    && (e.toRow >= 0 ==> e.toLane == nodes[e.toRow].lane)
  }

  /**
   * What `compute_layout` promises: one node per commit, in input order, row = position; one
   * edge per parent, row by row, with the first parent's edge Normal and the others Merge; each
   * edge resolved to its target's row and lane when the target is in the input, kept with
   * `to_row = -1` otherwise.
   */
  ghost predicate LayoutOf(commits: seq<CommitNode>, r: LayoutResult) {
    && r.totalCount == |commits|
    && |r.nodes| == |commits|
    && (forall i :: 0 <= i < |commits| ==> NodeFor(r.nodes[i], commits[i], i))
    && |r.edges| == |Links(commits)|
    && (forall k :: 0 <= k < |r.edges| ==> EdgeForLink(r.edges[k], Links(commits)[k], commits, r.nodes))
  }

  /**
   * Straight-line history: no commit has two parents, and a commit's parent, when it has one,
   * is the next commit of the input (or lies outside it, for the last commit).
   */
  ghost predicate Chained(commits: seq<CommitNode>) {
    forall i :: 0 <= i < |commits| ==>
      |commits[i].parents| <= 1 &&
      (i + 1 < |commits| && |commits[i].parents| == 1 ==> commits[i].parents[0] == commits[i + 1].sha)
  }

  /** A first-pass edge for link `l`: everything but the target's row and lane is known. */
  ghost predicate PendingEdgeForLink(e: Edge, l: Link, commits: seq<CommitNode>, nodes: seq<LayoutNode>) {
    && l.from < |nodes| && l.from < |commits|
    && e.fromSha == commits[l.from].sha
    && e.fromRow == l.from
    && e.fromLane == nodes[l.from].lane
    && e.toSha == l.to
    && e.edgeType == l.kind
    && e.colorIndex < PaletteSize
    && e.toRow == -1
  }

  /** Lane state of a straight-line history before row `row`: at most lane 0 is in use, by that row's commit. */
  ghost predicate ChainState(t: LaneTable, commits: seq<CommitNode>, row: nat) {
    && (forall l :: 0 <= l < |t.active| && t.active[l] ==> l == 0)
    && (forall s :: s in t.shaLane ==> t.shaLane[s] == 0)
    && (row < |commits| ==> forall s :: s in t.shaLane ==> s == commits[row].sha)
    && (row < |commits| && |t.active| > 0 && t.active[0] ==> commits[row].sha in t.shaLane)
  }

  /** `compute_layout`. */
  method ComputeLayout(commits: seq<CommitNode>) returns (r: LayoutResult)
    ensures LayoutOf(commits, r)
    ensures commits == [] ==> r == LayoutResult([], [], 0)
    ensures Chained(commits) ==> forall i :: 0 <= i < |r.nodes| ==> r.nodes[i].lane == 0
    ensures r == ReferenceLayout(commits)
  {
    if commits == [] {
      return LayoutResult([], [], 0);
    }
    var table := LaneTable([], map[], map[]);
    var nodes: seq<LayoutNode> := [];
    var edges: seq<Edge> := [];
    for row := 0 to |commits|
      invariant FirstPassUpTo(commits, row, table, nodes, edges)
      invariant PassState(table, nodes, edges) == FirstPass(commits, row)
    {
      table, nodes, edges := LayoutRow(commits, row, table, nodes, edges);
    }
    var resolved := ResolveEdges(commits, nodes, edges);
    ResolvedLinks(commits, nodes, edges, resolved);
    r := LayoutResult(nodes, resolved, |commits|);
  }

  /**
   * The state of the first pass after `row` rows: a valid lane table, one node per row, one
   * pending edge per link of those rows, and lane 0 throughout on a straight-line history.
   */
  ghost predicate FirstPassUpTo(commits: seq<CommitNode>, row: nat, table: LaneTable,
                                nodes: seq<LayoutNode>, edges: seq<Edge>)
    requires row <= |commits|
  {
    && ValidTable(table)
    && |nodes| == row
    && (forall i :: 0 <= i < row ==> NodeFor(nodes[i], commits[i], i))
    && |edges| == |LinksUpTo(commits, row)|
    && (forall k :: 0 <= k < |edges| ==> PendingEdgeForLink(edges[k], LinksUpTo(commits, row)[k], commits, nodes))
    && (Chained(commits) ==> ChainState(table, commits, row))
    && (Chained(commits) ==> forall i :: 0 <= i < row ==> nodes[i].lane == 0)
  }

  /** What the first pass has built: the lane table, the nodes and the pending edges. */
  datatype PassState = PassState(table: LaneTable, nodes: seq<LayoutNode>, edges: seq<Edge>)

  /**
   * The first pass over `commits[..n]`, row by row, as a function: each row emits `RowNode`,
   * holds its lane in the node's colour, and then links its parents.
   */
  function FirstPass(commits: seq<CommitNode>, n: nat): PassState
    requires n <= |commits|
  {
    if n == 0 then PassState(LaneTable([], map[], map[]), [], [])
    else
      var p := FirstPass(commits, n - 1);
      var c := commits[n - 1];
      var node := RowNode(p.table, n - 1, c);
      var held := Held(p.table, c.sha, node.colorIndex);
      PassState(LinkTable(held, c, node.lane), p.nodes + [node],
                p.edges + LinkEdges(held, c, n - 1, node.lane, node.colorIndex))
  }

  /** The layout of `commits`: the first pass over all of them, each edge then resolved. */
  function ReferenceLayout(commits: seq<CommitNode>): LayoutResult {
    var p := FirstPass(commits, |commits|);
    LayoutResult(p.nodes, seq(|p.edges|, k requires 0 <= k < |p.edges| => Resolve(p.edges[k], RowIndex(commits), p.nodes)),
                 |commits|)
  }

  /** One iteration of the first-pass loop of `compute_layout`: lay out row `row`. */
  method LayoutRow(commits: seq<CommitNode>, row: nat, table: LaneTable, nodes: seq<LayoutNode>, edges: seq<Edge>)
    returns (table': LaneTable, nodes': seq<LayoutNode>, edges': seq<Edge>)
    requires row < |commits| && FirstPassUpTo(commits, row, table, nodes, edges)
    requires PassState(table, nodes, edges) == FirstPass(commits, row)
    ensures FirstPassUpTo(commits, row + 1, table', nodes', edges')
    ensures PassState(table', nodes', edges') == FirstPass(commits, row + 1)
  {
    var node, es;
    table', node, es := ProcessCommit(table, row, commits[row]);
    AppendRow(commits, row, nodes, edges, node, es);
    if Chained(commits) {
      ChainStep(table, table', commits, row, node, es);
    }
    NodesStep(commits, row, nodes, node);
    nodes' := nodes + [node];
    edges' := edges + es;
    FirstPassStep(commits, row, PassState(table, nodes, edges), table', node, es);
  }

  /** A row laid out by the row rules extends the reference first pass by one row. */
  lemma FirstPassStep(commits: seq<CommitNode>, row: nat, p: PassState, t': LaneTable, node: LayoutNode, es: seq<Edge>)
    requires row < |commits| && p == FirstPass(commits, row)
    requires node == RowNode(p.table, row, commits[row])
    requires t' == LinkTable(Held(p.table, commits[row].sha, node.colorIndex), commits[row], node.lane)
    requires es == LinkEdges(Held(p.table, commits[row].sha, node.colorIndex), commits[row], row, node.lane, node.colorIndex)
    ensures PassState(t', p.nodes + [node], p.edges + es) == FirstPass(commits, row + 1)
  {
  }

  /** The node of row `row` extends the node list, keeping lane 0 on a straight-line history. */
  lemma NodesStep(commits: seq<CommitNode>, row: nat, nodes: seq<LayoutNode>, node: LayoutNode)
    requires row < |commits| && |nodes| == row
    requires forall i :: 0 <= i < row ==> NodeFor(nodes[i], commits[i], i)
    requires NodeFor(node, commits[row], row)
    requires Chained(commits) ==> (forall i :: 0 <= i < row ==> nodes[i].lane == 0) && node.lane == 0
    ensures forall i :: 0 <= i < row + 1 ==> NodeFor((nodes + [node])[i], commits[i], i)
    ensures Chained(commits) ==> forall i :: 0 <= i < row + 1 ==> (nodes + [node])[i].lane == 0
  {
    forall i | 0 <= i < row + 1
      ensures (nodes + [node])[i] == if i < row then nodes[i] else node
    {
    }
  }

  /** The edges of row `row` continue the first-pass edge list in link order. */
  lemma AppendRow(commits: seq<CommitNode>, row: nat, nodes: seq<LayoutNode>, edges: seq<Edge>,
                  node: LayoutNode, es: seq<Edge>)
    requires row < |commits| && |nodes| == row
    requires |edges| == |LinksUpTo(commits, row)|
    requires forall k :: 0 <= k < |edges| ==> PendingEdgeForLink(edges[k], LinksUpTo(commits, row)[k], commits, nodes)
    requires node.sha == commits[row].sha
    requires |es| == |commits[row].parents|
    requires forall j :: 0 <= j < |es| ==> PendingEdgeFor(es[j], commits[row], row, node.lane, j)
    ensures |edges + es| == |LinksUpTo(commits, row + 1)|
    ensures forall k :: 0 <= k < |edges + es| ==>
      PendingEdgeForLink((edges + es)[k], LinksUpTo(commits, row + 1)[k], commits, nodes + [node])
  {
    var links := LinksUpTo(commits, row);
    var added := LinksOf(row, commits[row].parents);
    assert LinksUpTo(commits, row + 1) == links + added;
    var nodes' := nodes + [node];
    forall k | 0 <= k < |edges| + |es|
      ensures PendingEdgeForLink((edges + es)[k], (links + added)[k], commits, nodes')
    {
      if k < |edges| {
        assert (edges + es)[k] == edges[k] && (links + added)[k] == links[k];
        assert nodes'[links[k].from] == nodes[links[k].from];
      } else {
        assert (edges + es)[k] == es[k - |edges|] && (links + added)[k] == added[k - |edges|];
        assert nodes'[row] == node;
      }
    }
  }

  /** After the second pass, each first-pass edge has become the resolved edge of its link. */
  lemma ResolvedLinks(commits: seq<CommitNode>, nodes: seq<LayoutNode>, edges: seq<Edge>, resolved: seq<Edge>)
    requires |nodes| == |commits|
    requires |edges| == |Links(commits)|
    requires forall k :: 0 <= k < |edges| ==> PendingEdgeForLink(edges[k], Links(commits)[k], commits, nodes)
    requires |resolved| == |edges|
    requires forall k :: 0 <= k < |edges| ==> resolved[k] == Resolve(edges[k], RowIndex(commits), nodes)
    ensures forall k :: 0 <= k < |resolved| ==> EdgeForLink(resolved[k], Links(commits)[k], commits, nodes)
  {
    forall k | 0 <= k < |resolved|
      ensures EdgeForLink(resolved[k], Links(commits)[k], commits, nodes)
    {
      assert PendingEdgeForLink(edges[k], Links(commits)[k], commits, nodes);
      assert resolved[k] == Resolve(edges[k], RowIndex(commits), nodes);
    }
  }

  /** One row of a straight-line history keeps it on lane 0. */
  lemma ChainStep(t: LaneTable, t': LaneTable, commits: seq<CommitNode>, row: nat, node: LayoutNode, es: seq<Edge>)
    requires row < |commits| && Chained(commits) && ChainState(t, commits, row)
    requires ValidTable(t)
    requires node.lane == if commits[row].sha in t.shaLane then t.shaLane[commits[row].sha] else FirstFree(t.active)
    requires |commits[row].parents| <= 1 ==>
      t'.shaLane == if Continues(t, commits[row]) then (t.shaLane - {commits[row].sha})[commits[row].parents[0] := node.lane]
                    else t.shaLane - {commits[row].sha}
    requires |commits[row].parents| <= 1 ==>
      var held := if commits[row].sha in t.shaLane then t.active else Occupy(t.active, node.lane);
      t'.active == if Continues(t, commits[row]) then held else Release(held, node.lane)
    ensures node.lane == 0
    ensures ChainState(t', commits, row + 1)
  {
    var c := commits[row];
    assert |c.parents| <= 1;
    if c.sha !in t.shaLane {
      assert t.shaLane == map[];
      assert |t.active| == 0 || !t.active[0];
    }
    var held := if c.sha in t.shaLane then t.active else Occupy(t.active, node.lane);
    assert forall l :: 0 <= l < |held| && held[l] ==> l == 0;
    assert t.shaLane - {c.sha} == map[];
  }

  /** Edge `ParentCount(commits, i) + j` of a layout is the edge of row `i` to its parent `j`. */
  lemma EdgeOfParent(commits: seq<CommitNode>, r: LayoutResult, i: nat, j: nat)
    requires LayoutOf(commits, r)
    requires i < |commits| && j < |commits[i].parents|
    ensures |r.edges| == ParentCount(commits, |commits|)
    ensures ParentCount(commits, i) + j < |r.edges|
    ensures var e := r.edges[ParentCount(commits, i) + j];
      && e.fromSha == commits[i].sha && e.toSha == commits[i].parents[j]
      && e.fromRow == i && e.fromLane == r.nodes[i].lane
      && e.edgeType == (if j == 0 then EdgeType.Normal else EdgeType.Merge)
  {
    LinkPosition(commits, |commits|, i, j);
  }

  /**
   * The second pass: an edge whose target sha is in the input points at the last row holding
   * that sha and at that node's lane; an edge whose target is absent keeps row -1.
   */
  lemma EdgeTarget(commits: seq<CommitNode>, r: LayoutResult, k: nat)
    requires LayoutOf(commits, r) && k < |r.edges|
    ensures var e := r.edges[k];
      && (e.toRow == -1 <==> forall i :: 0 <= i < |commits| ==> commits[i].sha != e.toSha)
      && (e.toRow != -1 ==>
            && 0 <= e.toRow < |commits| && commits[e.toRow].sha == e.toSha
            && e.toLane == r.nodes[e.toRow].lane
            && forall i :: e.toRow < i < |commits| ==> commits[i].sha != e.toSha)
  {
    var e := r.edges[k];
    assert EdgeForLink(e, Links(commits)[k], commits, r.nodes);
    var index := RowIndex(commits);
    if e.toSha in index {
      RowIndexLatest(commits);
      forall i | e.toRow < i < |commits|
        ensures commits[i].sha != e.toSha
      {
        assert i <= index[commits[i].sha];
      }
    }
  }

  /** A straight line of `n` commits, each the single parent of the one before it. */
  ghost predicate Linear(commits: seq<CommitNode>) {
    && |commits| >= 1
    && (forall i :: 0 <= i < |commits| - 1 ==> commits[i].parents == [commits[i + 1].sha])
    && commits[|commits| - 1].parents == []
  }

  lemma {:induction false} LinearParentCount(commits: seq<CommitNode>, n: nat)
    requires Linear(commits) && n <= |commits| - 1
    ensures ParentCount(commits, n) == n
  {
    if n > 0 {
      LinearParentCount(commits, n - 1);
      assert commits[n - 1].parents == [commits[n].sha];
    }
  }

  /** A straight line is chained. */
  lemma LinearChained(commits: seq<CommitNode>)
    requires Linear(commits)
    ensures Chained(commits)
  {
    var n := |commits|;
    forall i | 0 <= i < n
      ensures |commits[i].parents| <= 1
      ensures i + 1 < n && |commits[i].parents| == 1 ==> commits[i].parents[0] == commits[i + 1].sha
    {
      if i < n - 1 {
        assert commits[i].parents == [commits[i + 1].sha];
      }
    }
  }

  /** The layout of a straight line of `n` commits has `n - 1` edges, and the line is chained. */
  lemma LinearLayout(commits: seq<CommitNode>, r: LayoutResult)
    requires Linear(commits) && LayoutOf(commits, r)
    ensures Chained(commits)
    ensures |r.edges| == |commits| - 1
  {
    LinearChained(commits);
    LinearLinks(commits);
  }

  /** A straight line of `n` commits owes `n - 1` edges. */
  lemma LinearLinks(commits: seq<CommitNode>)
    requires Linear(commits)
    ensures |Links(commits)| == |commits| - 1
  {
    var n := |commits|;
    LinearParentCount(commits, n - 1);
    assert ParentCount(commits, n) == ParentCount(commits, n - 1) + |commits[n - 1].parents|;
    LinksCount(commits, n);
  }
}
