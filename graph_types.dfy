/**
 * The records of the commit graph: decorations on a commit, a commit as decoded from the log,
 * and the laid-out nodes and edges handed to the renderer. Rust's `i32` lanes and rows are
 * `int` here (a commit not yet laid out has lane and row -1), `u32` colour indices and `u64`
 * epoch seconds are `nat`.
 */
module GraphTypes {

  datatype RefType = Branch | RemoteBranch | Tag | Head | Stash

  /** One reference decorating a commit. */
  datatype RefInfo = RefInfo(name: string, refType: RefType, isHead: bool)

  /** A commit as decoded from the log. */
  datatype CommitNode = CommitNode(
    sha: string,
    shortSha: string,
    parents: seq<string>,
    children: seq<string>,
    authorName: string,
    authorEmail: string,
    authorDate: nat,
    committerName: string,
    committerEmail: string,
    commitDate: nat,
    subject: string,
    refs: seq<RefInfo>,
    lane: int,
    row: int)

  datatype NodeType = Normal | Head | Stash | WorkingTree

  /** A node of the rendered graph. */
  datatype LayoutNode = LayoutNode(
    sha: string,
    shortSha: string,
    lane: int,
    row: int,
    colorIndex: nat,
    subject: string,
    authorName: string,
    authorDate: nat,
    refs: seq<RefInfo>,
    parents: seq<string>,
    nodeType: NodeType)

  datatype EdgeType = Normal | Merge

  /** An edge from a commit to one of its parents. */
  datatype Edge = Edge(
    fromSha: string,
    toSha: string,
    fromLane: int,
    toLane: int,
    fromRow: int,
    toRow: int,
    edgeType: EdgeType,
    colorIndex: nat)

  datatype LayoutResult = LayoutResult(nodes: seq<LayoutNode>, edges: seq<Edge>, totalCount: nat)

  /** The shas of a node list, as a set. */
  function NodeShas(nodes: seq<LayoutNode>): (shas: set<string>)
    ensures forall i :: 0 <= i < |nodes| ==> nodes[i].sha in shas
    ensures forall s :: s in shas ==> exists i :: 0 <= i < |nodes| && nodes[i].sha == s
  {
    set i | 0 <= i < |nodes| :: nodes[i].sha
  }

  /**
   * A sha-to-position map collected from `(sha, position)` pairs in input order, as both the
   * layout's `sha_to_row` and the log parser's `sha_to_idx` are: every sha of the input is a
   * key, and a sha that occurs twice maps to its last position.
   */
  function RowIndex(commits: seq<CommitNode>): (index: map<string, int>)
    ensures forall i :: 0 <= i < |commits| ==> commits[i].sha in index
    ensures forall s :: s in index ==> 0 <= index[s] < |commits| && commits[index[s]].sha == s
  {
    if commits == [] then map[]
    else RowIndex(commits[..|commits| - 1])[commits[|commits| - 1].sha := |commits| - 1]
  }

  /** A sha that occurs twice maps to its last position: no row holding it lies past its entry. */
  lemma {:induction false} RowIndexLatest(commits: seq<CommitNode>)
    ensures forall j :: 0 <= j < |commits| ==> j <= RowIndex(commits)[commits[j].sha]
  {
    if commits != [] {
      var n := |commits| - 1;
      var init := commits[..n];
      RowIndexLatest(init);
      var prev := RowIndex(init);
      assert RowIndex(commits) == prev[commits[n].sha := n];
      forall j | 0 <= j < n
        ensures j <= RowIndex(commits)[commits[j].sha]
      {
        assert init[j] == commits[j];
        assert j <= prev[init[j].sha];
      }
    }
  }

  /** No later commit of the list has the sha of commit `i`. */
  ghost predicate IsLastRow(commits: seq<CommitNode>, i: int)
    requires 0 <= i < |commits|
  {
    forall k :: i < k < |commits| ==> commits[k].sha != commits[i].sha
  }

  /** `RowIndex` sends a sha to row `i` exactly when `i` is the last row holding that sha. */
  lemma RowIndexLast(commits: seq<CommitNode>, i: int)
    requires 0 <= i < |commits|
    ensures RowIndex(commits)[commits[i].sha] == i <==> IsLastRow(commits, i)
  {
    RowIndexLatest(commits);
  }
}
