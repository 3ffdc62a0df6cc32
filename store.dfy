/**
 * The handle store of `core/src/lib.rs` and the operations the host calls on it: laying out a
 * log and storing the result under a fresh handle, appending a further page of log to a stored
 * layout, filtering a stored layout, and freeing a handle. The global mutex around the store
 * and the JSON encoding of results are not part of this model; results are `Result` values.
 */
module Store {
  import opened Wrappers
  import opened GraphTypes
  import opened Layout
  import opened LogParser
  import DateFilter
  import RegexFilter

  /** Handles are `u32`: arithmetic on them wraps modulo 2^32. */
  const HandleModulus: nat := 0x1_0000_0000
  const InvalidHandle: string := "Invalid handle"

  /** The handle after `h`: `h.wrapping_add(1)`, with 0 skipped because it is the sentinel. */
  function NextHandle(h: nat): (n: nat)
    requires h < HandleModulus
    ensures 1 <= n < HandleModulus && n != h
    ensures h + 1 < HandleModulus ==> n == h + 1
  {
    var w := (h + 1) % HandleModulus;
    if w == 0 then 1 else w
  }

  /** The handle the `k`-th insert into a new store returns, counting from 0. */
  function HandleAfter(k: nat): (h: nat)
    ensures 1 <= h < HandleModulus
  {
    if k == 0 then 1 else NextHandle(HandleAfter(k - 1))
  }

  /**
   * Handles cycle through 1 .. 2^32 - 1: the `k`-th insert into a new store returns
   * `k mod (2^32 - 1) + 1`.
   */
  lemma {:induction false} HandleAfterClosedForm(k: nat)
    ensures HandleAfter(k) == k % (HandleModulus - 1) + 1
  {
    if k > 0 {
      HandleAfterClosedForm(k - 1);
      var m := HandleModulus - 1;
      ModSucc(k - 1, m);
      if (k - 1) % m == m - 1 {
        assert NextHandle(HandleModulus - 1) == 1;
      }
    }
  }

  /** Counting up by one steps the remainder by one, wrapping from `m - 1` to 0. */
  lemma ModSucc(x: nat, m: nat)
    requires m > 0
    ensures (x + 1) % m == if x % m == m - 1 then 0 else x % m + 1
  {
    var q, r := x / m, x % m;
    assert x == q * m + r;
    if r == m - 1 {
      assert x + 1 == (q + 1) * m + 0;
      ModUnique(x + 1, q + 1, 0, m);
    } else {
      ModUnique(x + 1, q, r + 1, m);
    }
  }

  /** The first 2^32 - 1 inserts into a new store all return different handles. */
  lemma HandlesDistinct(i: nat, j: nat)
    requires i < j < HandleModulus - 1
    ensures HandleAfter(i) != HandleAfter(j)
  {
    HandleAfterClosedForm(i);
    HandleAfterClosedForm(j);
  }

  /** Insert number 2^32 - 1 returns the first handle again: a handle still in use can be reissued. */
  lemma HandlesRepeat()
    ensures HandleAfter(HandleModulus - 1) == HandleAfter(0)
  {
    HandleAfterClosedForm(HandleModulus - 1);
  }

  // ---------------------------------------------------------------------------
  // The rebuilt commit list of append_to_layout
  // ---------------------------------------------------------------------------

  /** A stored node turned back into a commit: what the node keeps, lane and row reset to -1. */
  function RebuiltCommit(n: LayoutNode): CommitNode {
    CommitNode(n.sha, n.shortSha, n.parents, [], n.authorName, "", n.authorDate, "", "", 0,
               n.subject, n.refs, -1, -1)
  }

  function RebuiltCommits(nodes: seq<LayoutNode>): (commits: seq<CommitNode>)
    ensures |commits| == |nodes|
    ensures forall i :: 0 <= i < |nodes| ==> commits[i] == RebuiltCommit(nodes[i])
  {
    seq(|nodes|, i requires 0 <= i < |nodes| => RebuiltCommit(nodes[i]))
  }

  /** The new commits whose sha is not among `shas`, in order. */
  function UniqueNew(commits: seq<CommitNode>, shas: set<string>): (unique: seq<CommitNode>)
    ensures |unique| <= |commits|
  {
    if commits == [] then []
    else (if commits[0].sha in shas then [] else [commits[0]]) + UniqueNew(commits[1..], shas)
  }

  /** A new commit survives exactly when its sha is not already stored. */
  lemma {:induction false} UniqueNewMembers(commits: seq<CommitNode>, shas: set<string>)
    ensures forall c :: c in UniqueNew(commits, shas) <==> c in commits && c.sha !in shas
  {
    if commits != [] {
      UniqueNewMembers(commits[1..], shas);
      assert commits == [commits[0]] + commits[1..];
    }
  }

  /** Dropping duplicates commutes with concatenation: survivors keep their input order. */
  lemma {:induction false} UniqueNewAppend(a: seq<CommitNode>, b: seq<CommitNode>, shas: set<string>)
    ensures UniqueNew(a + b, shas) == UniqueNew(a, shas) + UniqueNew(b, shas)
  {
    if a != [] {
      assert (a + b)[0] == a[0];
      assert (a + b)[1..] == a[1..] + b;
      UniqueNewAppend(a[1..], b, shas);
      var head := UniqueNew([a[0]], shas);
      assert [a[0]][1..] == [];
      assert UniqueNew(a, shas) == head + UniqueNew(a[1..], shas);
    } else {
      assert a + b == b;
    }
  }

  /** The commit list `append_to_layout` lays out: the stored nodes, then the new commits not yet stored. */
  function AppendedCommits(existing: LayoutResult, newCommits: seq<CommitNode>): seq<CommitNode> {
    RebuiltCommits(existing.nodes) + UniqueNew(newCommits, NodeShas(existing.nodes))
  }

  /**
   * The layout `append_to_layout` recomputes: the stored commits, rebuilt from their nodes,
   * followed by the new commits whose sha is not stored yet.
   */
  method Relayout(existing: LayoutResult, newCommits: seq<CommitNode>) returns (r: LayoutResult)
    ensures LayoutOf(AppendedCommits(existing, newCommits), r)
    ensures r == ReferenceLayout(AppendedCommits(existing, newCommits))
  {
    var allCommits := RebuiltCommits(existing.nodes);
    allCommits := allCommits + UniqueNew(newCommits, NodeShas(existing.nodes));
    r := ComputeLayout(allCommits);
  }

  /**
   * Appending keeps every stored commit in its row with what the node carried (sha, subject,
   * author, date, refs, parents), and puts the new commits after them, none of them a
   * duplicate of a stored sha.
   */
  lemma AppendKeepsStored(existing: LayoutResult, newCommits: seq<CommitNode>, r: LayoutResult)
    requires LayoutOf(AppendedCommits(existing, newCommits), r)
    ensures |r.nodes| >= |existing.nodes|
    ensures forall i :: 0 <= i < |existing.nodes| ==>
      var n := r.nodes[i]; var m := existing.nodes[i];
      && n.sha == m.sha && n.row == i && n.shortSha == m.shortSha && n.subject == m.subject
      && n.authorName == m.authorName && n.authorDate == m.authorDate && n.refs == m.refs
      && n.parents == m.parents
    ensures forall i :: |existing.nodes| <= i < |r.nodes| ==>
      r.nodes[i].sha !in NodeShas(existing.nodes) && r.nodes[i].row == i
  {
    var commits := AppendedCommits(existing, newCommits);
    var unique := UniqueNew(newCommits, NodeShas(existing.nodes));
    UniqueNewMembers(newCommits, NodeShas(existing.nodes));
    forall i | |existing.nodes| <= i < |r.nodes|
      ensures r.nodes[i].sha !in NodeShas(existing.nodes)
    {
      assert commits[i] == unique[i - |existing.nodes|];
      assert commits[i] in unique;
    }
  }

  // ---------------------------------------------------------------------------
  // LayoutStore
  // ---------------------------------------------------------------------------

  /** The table of stored layouts, keyed by `u32` handles, and the handle the next insert returns. */
  class LayoutStore {
    var layouts: map<nat, LayoutResult>
    var nextHandle: nat

    /** Every handle is a `u32`, and the next one is never the sentinel 0. */
    ghost predicate Valid()
      reads this
    {
      && 1 <= nextHandle < HandleModulus
      && (forall h :: h in layouts ==> h < HandleModulus)
    }

    /** `LayoutStore::new`: no layouts, next handle 1. */
    constructor()
      ensures Valid()
      ensures layouts == map[] && nextHandle == 1
    {
      layouts := map[];
      nextHandle := 1;
    }

    /** `insert`: store under the current next handle, return it, and move on to the next handle. */
    method Insert(layout: LayoutResult) returns (handle: nat)
      requires Valid()
      modifies this
      ensures Valid()
      ensures handle == old(nextHandle)
      ensures layouts == old(layouts)[handle := layout]
      ensures nextHandle == NextHandle(old(nextHandle))
    {
      handle := nextHandle;
      nextHandle := (nextHandle + 1) % HandleModulus;
      if nextHandle == 0 {
        nextHandle := 1;
      }
      layouts := layouts[handle := layout];
    }

    /** `get`. */
    method Get(handle: nat) returns (r: Option<LayoutResult>)
      ensures r.Some? <==> handle in layouts
      ensures r.Some? ==> r.value == layouts[handle]
    {
      if handle in layouts {
        r := Some(layouts[handle]);
      } else {
        r := None;
      }
    }

    /**
     * `get_mut` followed by an assignment through the reference it returns: the layout under
     * a present handle is replaced; an absent handle leaves the store alone.
     */
    method Replace(handle: nat, layout: LayoutResult) returns (found: bool)
      requires Valid()
      modifies this
      ensures Valid()
      ensures found <==> handle in old(layouts)
      ensures layouts == if found then old(layouts)[handle := layout] else old(layouts)
      ensures nextHandle == old(nextHandle)
    {
      found := handle in layouts;
      if found {
        layouts := layouts[handle := layout];
      }
    }

    /** `remove`: true exactly when the handle was present; only that handle goes. */
    method Remove(handle: nat) returns (existed: bool)
      requires Valid()
      modifies this
      ensures Valid()
      ensures existed <==> handle in old(layouts)
      ensures layouts == old(layouts) - {handle}
      ensures nextHandle == old(nextHandle)
    {
      existed := handle in layouts;
      layouts := layouts - {handle};
    }

    /** `compute_graph_layout`: parse, lay out, and store under a fresh handle. */
    method ComputeGraphLayout(rawLog: string) returns (handle: nat, layout: LayoutResult)
      requires Valid()
      modifies this
      ensures Valid()
      ensures LayoutOf(LogCommits(rawLog), layout)
      ensures layout == ReferenceLayout(LogCommits(rawLog))
      ensures handle == old(nextHandle) && layouts == old(layouts)[handle := layout]
    {
      var commits := ParseLog(rawLog);
      layout := ComputeLayout(commits);
      handle := Insert(layout);
    }

    /**
     * `append_to_layout`: an unknown handle is an error; when no new commit parses, or every
     * new sha is already stored, the stored layout is returned unchanged; otherwise the stored
     * nodes and the new commits are laid out again from scratch and the result replaces the
     * stored layout under the same handle.
     */
    method AppendToLayout(handle: nat, rawLog: string) returns (r: Result<LayoutResult>)
      requires Valid()
      modifies this
      ensures Valid() && nextHandle == old(nextHandle)
      ensures handle !in old(layouts) ==> r == Err(InvalidHandle) && layouts == old(layouts)
      ensures handle in old(layouts) ==>
        var existing := old(layouts)[handle];
        var unique := UniqueNew(LogCommits(rawLog), NodeShas(existing.nodes));
        && r.Ok?
        && (unique == [] ==> r.value == existing && layouts == old(layouts))
        && (unique != [] ==> LayoutOf(AppendedCommits(existing, LogCommits(rawLog)), r.value)
                             && r.value == ReferenceLayout(AppendedCommits(existing, LogCommits(rawLog)))
                             && layouts == old(layouts)[handle := r.value])
    {
      var newCommits := ParseLog(rawLog);
      if newCommits == [] {
        if handle in layouts {
          return Ok(layouts[handle]);
        }
        return Err(InvalidHandle);
      }
      if handle !in layouts {
        return Err(InvalidHandle);
      }
      var existing := layouts[handle];
      var uniqueNew := UniqueNew(newCommits, NodeShas(existing.nodes));
      if uniqueNew == [] {
        return Ok(existing);
      }
      var newLayout := Relayout(existing, newCommits);
      var _ := Replace(handle, newLayout);
      return Ok(newLayout);
    }

    /** `free_layout`: drop the handle, present or not. */
    method FreeLayout(handle: nat)
      requires Valid()
      modifies this
      ensures Valid()
      ensures layouts == old(layouts) - {handle} && nextHandle == old(nextHandle)
    {
      var _ := Remove(handle);
    }

    /** `filter_commits`: an unknown handle is an error, otherwise the field filter of the stored layout. */
    method FilterCommits(handle: nat, field: string, compiled: Option<string -> bool>)
      returns (r: Result<LayoutResult>)
      ensures handle !in layouts ==> r == Err(InvalidHandle)
      ensures handle in layouts ==> r == RegexFilter.FilterByField(layouts[handle], field, compiled)
    {
      var stored := Get(handle);
      if stored.None? {
        return Err(InvalidHandle);
      }
      r := RegexFilter.FilterByField(stored.value, field, compiled);
    }

    /** `filter_by_date`: an unknown handle is an error, otherwise the date filter of the stored layout. */
    method FilterByDate(handle: nat, after: nat, before: nat) returns (r: Result<LayoutResult>)
      ensures handle !in layouts ==> r == Err(InvalidHandle)
      ensures handle in layouts ==> r == Ok(DateFilter.FilterByDate(layouts[handle], after, before))
    {
      var stored := Get(handle);
      if stored.None? {
        return Err(InvalidHandle);
      }
      r := Ok(DateFilter.FilterByDate(stored.value, after, before));
    }
  }

  /**
   * The sequence of the store's own test: a layout stored, its handle freed, and a filter on
   * that handle then fails.
   */
  method FreedHandleIsInvalid(rawLog: string, compiled: Option<string -> bool>)
    returns (r: Result<LayoutResult>)
    ensures r == Err(InvalidHandle)
  {
    var store := new LayoutStore();
    var handle, _ := store.ComputeGraphLayout(rawLog);
    store.FreeLayout(handle);
    r := store.FilterCommits(handle, "author", compiled);
  }
}
