/**
 * The git-log decoder: `parse_refs` classifies the comma-separated parts of a `%d` decoration,
 * and `parse_log` splits the raw log into records (separated by U+001E) and fields (separated
 * by U+0000), decodes each well-formed record into a commit, and fills in every commit's
 * children from the parents of the commits after it.
 */
module LogParser {
  import opened Wrappers
  import opened Seqs
  import opened Text
  import opened GraphTypes

  const RecordSeparator: char := '\U{1E}'
  const FieldSeparator: char := '\U{0}'
  const HeadArrow: string := "HEAD -> "

  // ---------------------------------------------------------------------------
  // parse_refs
  // ---------------------------------------------------------------------------

  /** The decoration with its outer parentheses removed, only when it has both. */
  function Unwrap(t: string): string {
    if |t| >= 1 && t[0] == '(' && t[|t| - 1] == ')' then t[1..|t| - 1] else t
  }

  /** The branch named by the first part of the form `HEAD -> X`, trimmed. */
  function FindHead(parts: seq<string>): (head: Option<string>)
    ensures head.None? <==> forall k :: 0 <= k < |parts| ==> !StartsWith(Trim(parts[k]), HeadArrow)
  {
    if parts == [] then None
    else
      var part := Trim(parts[0]);
      if StartsWith(part, HeadArrow) then Some(Trim(part[|HeadArrow|..]))
      else
        assert forall k :: 1 <= k < |parts| ==> parts[k] == parts[1..][k - 1];
        FindHead(parts[1..])
  }

  /** `head_branch`: looked for only when the decoration mentions `HEAD -> ` at all. */
  function HeadBranchOf(inner: string): Option<string> {
    if ContainsStr(inner, HeadArrow) then FindHead(Split(inner, ',')) else None
  }

  /** What one trimmed part of a decoration denotes, before it is turned into refs. */
  datatype PartShape =
    | Blank
    | BareHead
    | HeadOf(branch: string)
    | TagNamed(name: string)
    | StashNamed(name: string)
    | RemoteNamed(name: string)
    | LocalNamed(name: string)

  /**
   * The shape of one trimmed part. The rules are tried in order and the first that applies
   * wins: empty, `HEAD`, `HEAD -> X`, `tag: X`, stash, `refs/remotes/X`, `refs/heads/X`, a
   * name holding `/`, and finally a local branch.
   */
  function ShapeOf(part: string): PartShape {
    if part == [] then Blank
    else if part == "HEAD" then BareHead
    else if StartsWith(part, HeadArrow) then HeadOf(Trim(part[|HeadArrow|..]))
    else if StartsWith(part, "tag: ") then TagNamed(Trim(part[5..]))
    else if StartsWith(part, "refs/stash") || part == "stash" then StashNamed(part)
    else if StartsWith(part, "refs/remotes/") then RemoteNamed(part[13..])
    else if StartsWith(part, "refs/heads/") then LocalNamed(part[11..])
    else if '/' in part then RemoteNamed(part)
    else LocalNamed(part)
  }

  /** The refs a part of the given shape pushes; a local branch is current when it is `head_branch`. */
  function RefsOf(shape: PartShape, headBranch: Option<string>): seq<RefInfo> {
    match shape
    case Blank => []
    case BareHead => [RefInfo("HEAD", RefType.Head, true)]
    case HeadOf(branch) => [RefInfo("HEAD", RefType.Head, true), RefInfo(branch, RefType.Branch, true)]
    case TagNamed(name) => [RefInfo(name, RefType.Tag, false)]
    case StashNamed(name) => [RefInfo(name, RefType.Stash, false)]
    case RemoteNamed(name) => [RefInfo(name, RefType.RemoteBranch, false)]
    case LocalNamed(name) => [RefInfo(name, RefType.Branch, headBranch == Some(name))]
  }

  /** The refs one trimmed part yields. */
  function ClassifyPart(part: string, headBranch: Option<string>): seq<RefInfo> {
    RefsOf(ShapeOf(part), headBranch)
  }

  /** Whether one of the rules before the branch rules claims the part: HEAD, `HEAD -> X`, a tag or a stash. */
  predicate ClaimedEarly(part: string) {
    part == "HEAD" || StartsWith(part, HeadArrow) || StartsWith(part, "tag: ")
    || StartsWith(part, "refs/stash") || part == "stash"
  }

  /**
   * The classification rules, stated on the refs of one part: an empty part yields nothing, a
   * `HEAD -> X` part yields the Head ref and then the current branch, any other part one ref;
   * `tag: ` is tested before the stash names; only `HEAD` and the branch `head_branch` names are
   * marked as the current head.
   */
  lemma ClassifyPartRules(part: string, headBranch: Option<string>)
    ensures var refs := ClassifyPart(part, headBranch);
      && (refs == [] <==> part == [])
      && |refs| <= 2
      && (|refs| == 2 <==> StartsWith(part, HeadArrow))
      && (|refs| == 2 ==>
            refs == [RefInfo("HEAD", RefType.Head, true), RefInfo(Trim(part[|HeadArrow|..]), RefType.Branch, true)])
    ensures var refs := ClassifyPart(part, headBranch);
      |refs| == 1 ==>
        && (refs[0].refType == RefType.Head <==> part == "HEAD")
        && (refs[0].refType == RefType.Tag <==> StartsWith(part, "tag: "))
        && (refs[0].refType == RefType.Tag ==> refs[0].name == Trim(part[5..]))
        && (refs[0].refType == RefType.Stash <==>
              !StartsWith(part, "tag: ") && (StartsWith(part, "refs/stash") || part == "stash"))
        && (refs[0].isHead <==>
              part == "HEAD" || (refs[0].refType == RefType.Branch && headBranch == Some(refs[0].name)))
    // the names and the branch rules: `refs/remotes/X` is the remote branch X, `refs/heads/X`
    // the local branch X, any other name holding `/` a remote branch, a plain name a local one
    ensures var refs := ClassifyPart(part, headBranch);
      |refs| == 1 ==>
        && (part == "HEAD" ==> refs[0].name == "HEAD")
        && (refs[0].refType == RefType.Stash ==> refs[0].name == part)
        && (refs[0].refType == RefType.RemoteBranch <==>
              !ClaimedEarly(part) && (StartsWith(part, "refs/remotes/") || (!StartsWith(part, "refs/heads/") && '/' in part)))
        && (refs[0].refType == RefType.Branch <==>
              !ClaimedEarly(part) && !StartsWith(part, "refs/remotes/") && (StartsWith(part, "refs/heads/") || '/' !in part))
        && (!ClaimedEarly(part) && StartsWith(part, "refs/remotes/") ==> refs[0].name == part[13..])
        && (!ClaimedEarly(part) && !StartsWith(part, "refs/remotes/") && StartsWith(part, "refs/heads/") ==>
              refs[0].name == part[11..])
        && (!ClaimedEarly(part) && !StartsWith(part, "refs/remotes/") && !StartsWith(part, "refs/heads/") ==>
              refs[0].name == part)
  {
  }

  /** The refs of a list of parts: each part's refs, trimmed, in part order. */
  function PartsRefs(parts: seq<string>, headBranch: Option<string>): seq<RefInfo> {
    if parts == [] then []
    else PartsRefs(parts[..|parts| - 1], headBranch) + ClassifyPart(Trim(parts[|parts| - 1]), headBranch)
  }

  /** Output order follows part order: the refs of one more part come after those before it. */
  lemma PartsRefsSnoc(parts: seq<string>, headBranch: Option<string>, k: nat)
    requires k < |parts|
    ensures PartsRefs(parts[..k + 1], headBranch) == PartsRefs(parts[..k], headBranch) + ClassifyPart(Trim(parts[k]), headBranch)
  {
    TakeStep(parts, k);
  }

  /** The refs of one decoration string. */
  function DecorationRefs(decorate: string): seq<RefInfo> {
    var trimmed := Trim(decorate);
    if trimmed == [] then []
    else
      var inner := Unwrap(trimmed);
      PartsRefs(Split(inner, ','), HeadBranchOf(inner))
  }

  /** Only `HEAD` refs and branch refs are ever marked as the current head. */
  lemma {:induction false} OnlyHeadsAreCurrent(parts: seq<string>, headBranch: Option<string>)
    ensures forall r :: r in PartsRefs(parts, headBranch) ==> IsCurrentKind(r)
  {
    if parts != [] {
      OnlyHeadsAreCurrent(parts[..|parts| - 1], headBranch);
      RefsOfCurrent(ShapeOf(Trim(parts[|parts| - 1])), headBranch);
    }
  }

  /** A ref marked as the current head is the `HEAD` ref or a branch. */
  predicate IsCurrentKind(r: RefInfo) {
    r.isHead ==> r.refType == RefType.Head || r.refType == RefType.Branch
  }

  lemma RefsOfCurrent(shape: PartShape, headBranch: Option<string>)
    ensures forall r :: r in RefsOf(shape, headBranch) ==> IsCurrentKind(r)
  {
  }

  /** The body of the part loop of `parse_refs`: push the refs of one trimmed part. */
  method PushPartRefs(refs: seq<RefInfo>, part: string, headBranch: Option<string>) returns (refs': seq<RefInfo>)
    ensures refs' == refs + ClassifyPart(part, headBranch)
  {
    if part == [] {
      assert ShapeOf(part) == Blank;
      return refs;
    }
    if part == "HEAD" {
      assert ShapeOf(part) == BareHead;
      return refs + [RefInfo("HEAD", RefType.Head, true)];
    }
    refs' := PushMarkedRef(refs, part, headBranch);
  }

  /** One step of the part loop of `parse_refs`: the refs of the first `k + 1` parts. */
  method PushPart(refs: seq<RefInfo>, parts: seq<string>, k: nat, headBranch: Option<string>) returns (refs': seq<RefInfo>)
    requires k < |parts| && refs == PartsRefs(parts[..k], headBranch)
    ensures refs' == PartsRefs(parts[..k + 1], headBranch)
  {
    PartsRefsSnoc(parts, headBranch, k);
    refs' := PushPartRefs(refs, Trim(parts[k]), headBranch);
  }

  /** The loop body once `part` is neither empty nor `HEAD`: `HEAD -> X` and `tag: X` parts. */
  method PushMarkedRef(refs: seq<RefInfo>, part: string, headBranch: Option<string>) returns (refs': seq<RefInfo>)
    requires part != [] && part != "HEAD"
    ensures refs' == refs + ClassifyPart(part, headBranch)
  {
    if StartsWith(part, HeadArrow) {
      var branchName := Trim(part[|HeadArrow|..]);
      assert ShapeOf(part) == HeadOf(branchName);
      refs' := refs + [RefInfo("HEAD", RefType.Head, true)];
      refs' := refs' + [RefInfo(branchName, RefType.Branch, true)];
      return;
    }
    var tagName := StripPrefix(part, "tag: ");
    if tagName.Some? {
      assert ShapeOf(part) == TagNamed(Trim(tagName.value));
      return refs + [RefInfo(Trim(tagName.value), RefType.Tag, false)];
    }
    refs' := PushNamedRef(refs, part, headBranch);
  }

  /** The rest of the loop body, once `part` is none of `""`, `HEAD`, `HEAD -> X`, `tag: X`. */
  method PushNamedRef(refs: seq<RefInfo>, part: string, headBranch: Option<string>) returns (refs': seq<RefInfo>)
    requires part != [] && part != "HEAD" && !StartsWith(part, HeadArrow) && !StartsWith(part, "tag: ")
    ensures refs' == refs + ClassifyPart(part, headBranch)
  {
    if StartsWith(part, "refs/stash") || part == "stash" {
      assert ShapeOf(part) == StashNamed(part);
      return refs + [RefInfo(part, RefType.Stash, false)];
    }
    var remote := StripPrefix(part, "refs/remotes/");
    if remote.Some? {
      assert ShapeOf(part) == RemoteNamed(remote.value);
      return refs + [RefInfo(remote.value, RefType.RemoteBranch, false)];
    }
    refs' := PushBranchRef(refs, part, headBranch);
  }

  /** The last rules of the loop body: `refs/heads/X`, a name holding `/`, a local branch. */
  method PushBranchRef(refs: seq<RefInfo>, part: string, headBranch: Option<string>) returns (refs': seq<RefInfo>)
    requires part != [] && part != "HEAD" && !StartsWith(part, HeadArrow) && !StartsWith(part, "tag: ")
    requires !StartsWith(part, "refs/stash") && part != "stash" && !StartsWith(part, "refs/remotes/")
    ensures refs' == refs + ClassifyPart(part, headBranch)
  {
    var local := StripPrefix(part, "refs/heads/");
    if local.Some? {
      assert ShapeOf(part) == LocalNamed(local.value);
      return refs + [RefInfo(local.value, RefType.Branch, headBranch == Some(local.value))];
    }
    if '/' in part {
      assert ShapeOf(part) == RemoteNamed(part);
      refs' := refs + [RefInfo(part, RefType.RemoteBranch, false)];
    } else {
      assert ShapeOf(part) == LocalNamed(part);
      refs' := refs + [RefInfo(part, RefType.Branch, headBranch == Some(part))];
    }
  }

  /** The head search of `parse_refs`: the first part that reads `HEAD -> X` names the branch. */
  method FindHeadBranch(parts: seq<string>) returns (headBranch: Option<string>)
    ensures headBranch == FindHead(parts)
  {
    var k := 0;
    while k < |parts|
      invariant 0 <= k <= |parts|
      invariant FindHead(parts[k..]) == FindHead(parts)
    {
      var part := Trim(parts[k]);
      var branchName := StripPrefix(part, HeadArrow);
      if branchName.Some? {
        return Some(Trim(branchName.value));
      }
      assert parts[k..][1..] == parts[k + 1..];
      k := k + 1;
    }
    return None;
  }

  /** `parse_refs`. */
  method ParseRefs(decorate: string) returns (refs: seq<RefInfo>)
    ensures refs == DecorationRefs(decorate)
    ensures Trim(decorate) == [] ==> refs == []
  {
    var trimmed := Trim(decorate);
    if trimmed == [] {
      return [];
    }
    var inner := Unwrap(trimmed);
    var parts := Split(inner, ',');
    var headBranch: Option<string> := None;
    if ContainsStr(inner, HeadArrow) {
      headBranch := FindHeadBranch(parts);
    }
    refs := PartsLoop(parts, headBranch);
  }

  /** The part loop of `parse_refs`: every part's refs, in part order. */
  method PartsLoop(parts: seq<string>, headBranch: Option<string>) returns (refs: seq<RefInfo>)
    ensures refs == PartsRefs(parts, headBranch)
  {
    refs := [];
    TakeAll(parts);
    var k := 0;
    while k < |parts|
      invariant 0 <= k <= |parts|
      invariant refs == PartsRefs(parts[..k], headBranch)
    {
      refs := PushPart(refs, parts, k, headBranch);
      k := k + 1;
    }
  }

  // ---------------------------------------------------------------------------
  // parse_log: records
  // ---------------------------------------------------------------------------

  /** A date field: its trimmed text as a `u64`, or 0 when it does not parse. */
  function ParseDate(field: string): (date: nat)
    ensures date <= U64_MAX
  {
    var parsed := ParseUnsigned(Trim(field), U64_MAX);
    if parsed.Some? then parsed.value else 0
  }

  /**
   * The fields of one record: fewer than ten fields or an empty trimmed sha skip the record.
   * The decoration is the eleventh field when there is one. A decoded commit has no children
   * yet and lane and row -1.
   */
  function DecodeFields(fields: seq<string>): Option<CommitNode> {
    if |fields| < 10 || Trim(fields[0]) == [] then None
    else
      Some(CommitNode(
        Trim(fields[0]), Trim(fields[1]), SplitWhitespace(fields[2]), [],
        fields[3], fields[4], ParseDate(fields[5]),
        fields[6], fields[7], ParseDate(fields[8]),
        fields[9], DecorationRefs(if |fields| > 10 then fields[10] else ""),
        -1, -1))
  }

  /** One record of the log: trimmed, skipped when empty, else split on NUL into fields. */
  function DecodeRecord(raw: string): Option<CommitNode> {
    var record := Trim(raw);
    if record == [] then None else DecodeFields(Split(record, FieldSeparator))
  }

  /**
   * What every decoded commit looks like: a non-empty sha without surrounding whitespace,
   * parents that are non-empty whitespace-free tokens, no children yet, lane and row -1.
   */
  ghost predicate FreshlyDecoded(c: CommitNode) {
    && c.sha != [] && !IsSpace(c.sha[0]) && !IsSpace(c.sha[|c.sha| - 1])
    && (forall k :: 0 <= k < |c.parents| ==> IsWord(c.parents[k]))
    && c.children == [] && c.lane == -1 && c.row == -1
  }

  /** Which field lists are skipped (fewer than ten fields, empty sha) and the decoded shape. */
  lemma DecodeFieldsRules(fields: seq<string>)
    ensures DecodeFields(fields).Some? <==> |fields| >= 10 && Trim(fields[0]) != []
    ensures DecodeFields(fields).Some? ==> FreshlyDecoded(DecodeFields(fields).value)
  {
    if |fields| >= 10 && Trim(fields[0]) != [] {
      SplitWhitespaceWords(fields[2]);
    }
  }

  /** Which records are skipped: empty ones, those with fewer than ten fields or an empty sha. */
  lemma DecodeRecordRules(raw: string)
    ensures var record := Trim(raw);
      DecodeRecord(raw).Some? <==>
        record != [] && |Split(record, FieldSeparator)| >= 10 && Trim(Split(record, FieldSeparator)[0]) != []
    ensures DecodeRecord(raw).Some? ==> FreshlyDecoded(DecodeRecord(raw).value)
  {
    var record := Trim(raw);
    if record != [] {
      DecodeFieldsRules(Split(record, FieldSeparator));
    }
  }

  /** The commit a record decodes to, if any, as a sequence of at most one. */
  function RecordCommits(raw: string): seq<CommitNode> {
    var c := DecodeRecord(raw);
    if c.Some? then [c.value] else []
  }

  /** The commits of the well-formed records, in record order. */
  function Decoded(records: seq<string>): seq<CommitNode> {
    FlatMap(RecordCommits, records)
  }

  /** Surviving records keep their input order. */
  lemma DecodedAppend(a: seq<string>, b: seq<string>)
    ensures Decoded(a + b) == Decoded(a) + Decoded(b)
  {
    FlatMapAppend(RecordCommits, a, b);
  }

  /**
   * A record as `git log --format=%H%x00%h%x00%P%x00%an%x00%ae%x00%at%x00%cn%x00%ce%x00%ct%x00%s%x00%d`
   * writes it, for a commit without decorations.
   */
  function EncodeRecord(c: CommitNode): string {
    Join(EncodedFields(c), FieldSeparator)
  }

  /** The eleven fields of an encoded record; the decoration field is empty. */
  function EncodedFields(c: CommitNode): seq<string> {
    [c.sha, c.shortSha, Unwords(c.parents), c.authorName, c.authorEmail, ToDecimal(c.authorDate),
     c.committerName, c.committerEmail, ToDecimal(c.commitDate), c.subject, ""]
  }

  /** A commit that git can have written: hashes are words, no field holds a NUL, dates fit a `u64`. */
  ghost predicate Encodable(c: CommitNode) {
    && IsWord(c.sha) && IsWord(c.shortSha)
    && (forall k :: 0 <= k < |c.parents| ==> IsWord(c.parents[k]) && FieldSeparator !in c.parents[k])
    && FieldSeparator !in c.sha && FieldSeparator !in c.shortSha
    && FieldSeparator !in c.authorName && FieldSeparator !in c.authorEmail
    && FieldSeparator !in c.committerName && FieldSeparator !in c.committerEmail
    && FieldSeparator !in c.subject
    && c.authorDate <= U64_MAX && c.commitDate <= U64_MAX
    && c.refs == [] && c.children == [] && c.lane == -1 && c.row == -1
  }

  lemma {:induction false} SeparatorNotInUnwords(tokens: seq<string>)
    requires forall k :: 0 <= k < |tokens| ==> FieldSeparator !in tokens[k]
    ensures FieldSeparator !in Unwords(tokens)
  {
    if |tokens| > 1 {
      SeparatorNotInUnwords(tokens[1..]);
      assert Unwords(tokens) == tokens[0] + [' '] + Unwords(tokens[1..]);
    }
  }

  lemma DigitsHaveNoSeparator(s: string)
    requires AllDigits(s)
    ensures FieldSeparator !in s
  {
  }

  lemma ParseDateOfDecimal(n: nat)
    requires n <= U64_MAX
    ensures ParseDate(ToDecimal(n)) == n
  {
    var s := ToDecimal(n);
    assert IsDigit(s[0]) && IsDigit(s[|s| - 1]);
    TrimIdentity(s);
    ParseToDecimal(n, U64_MAX);
  }

  /** Round trip: decoding the record git writes for a commit gives the commit back. */
  lemma DecodeEncodeRecord(c: CommitNode)
    requires Encodable(c)
    ensures DecodeRecord(EncodeRecord(c)) == Some(c)
  {
    EncodedRecordSplits(c);
    DecodeEncodedFields(c);
  }

  /** An encoded record is already trimmed and splits back into its fields. */
  lemma EncodedRecordSplits(c: CommitNode)
    requires Encodable(c)
    ensures Trim(EncodeRecord(c)) == EncodeRecord(c)
    ensures Split(EncodeRecord(c), FieldSeparator) == EncodedFields(c)
  {
    EncodedFieldsClean(c);
    SplitJoin(EncodedFields(c), FieldSeparator);
    EncodedRecordTrimmed(c);
  }

  /** No encoded field holds the separator. */
  lemma EncodedFieldsClean(c: CommitNode)
    requires Encodable(c)
    ensures forall i :: 0 <= i < |EncodedFields(c)| ==> FieldSeparator !in EncodedFields(c)[i]
  {
    SeparatorNotInUnwords(c.parents);
    DigitsHaveNoSeparator(ToDecimal(c.authorDate));
    DigitsHaveNoSeparator(ToDecimal(c.commitDate));
  }

  /** An encoded record starts with the sha and ends with a separator, so `trim` keeps it whole. */
  lemma EncodedRecordTrimmed(c: CommitNode)
    requires Encodable(c)
    ensures Trim(EncodeRecord(c)) == EncodeRecord(c)
  {
    var fields := EncodedFields(c);
    JoinEndsWithEmpty(fields);
    JoinHead(fields, FieldSeparator);
    TrimIdentity(EncodeRecord(c));
  }

  /** The fields of an encoded record decode to the commit. */
  lemma DecodeEncodedFields(c: CommitNode)
    requires Encodable(c)
    ensures DecodeFields(EncodedFields(c)) == Some(c)
  {
    TrimIdentity(c.sha);
    TrimIdentity(c.shortSha);
    SplitWhitespaceUnwords(c.parents);
    ParseDateOfDecimal(c.authorDate);
    ParseDateOfDecimal(c.commitDate);
  }

  /** A join whose last piece is empty ends with the separator. */
  lemma {:induction false} JoinEndsWithEmpty(parts: seq<string>)
    requires |parts| >= 2 && parts[|parts| - 1] == []
    ensures Join(parts, FieldSeparator) != []
    ensures Join(parts, FieldSeparator)[|Join(parts, FieldSeparator)| - 1] == FieldSeparator
  {
    if |parts| > 2 {
      JoinEndsWithEmpty(parts[1..]);
    }
  }

  // ---------------------------------------------------------------------------
  // parse_log: the children index
  // ---------------------------------------------------------------------------

  /**
   * The `(parent row, child sha)` additions a commit with sha `sha` and parents `parents`
   * contributes: one per parent that `index` knows, in parent order.
   */
  function RowLinks(index: map<string, int>, parents: seq<string>, sha: string): seq<(int, string)> {
    if parents == [] then []
    else
      var parent := parents[|parents| - 1];
      RowLinks(index, parents[..|parents| - 1], sha) + (if parent in index then [(index[parent], sha)] else [])
  }

  /** The additions of the first `n` commits, commit by commit, parent by parent. */
  function ChildLinks(commits: seq<CommitNode>, index: map<string, int>, n: nat): seq<(int, string)>
    requires n <= |commits|
  {
    if n == 0 then [] else ChildLinks(commits, index, n - 1) + RowLinks(index, commits[n - 1].parents, commits[n - 1].sha)
  }

  /** The children additions leave at row `i`, in the order they are made. */
  function ChildrenOf(links: seq<(int, string)>, i: int): seq<string> {
    if links == [] then []
    else
      var e := links[|links| - 1];
      ChildrenOf(links[..|links| - 1], i) + (if e.0 == i then [e.1] else [])
  }

  /** The commits with their children filled in. */
  function WithChildren(commits: seq<CommitNode>): (r: seq<CommitNode>)
    ensures |r| == |commits|
  {
    var links := ChildLinks(commits, RowIndex(commits), |commits|);
    seq(|commits|, i requires 0 <= i < |commits| => commits[i].(children := ChildrenOf(links, i)))
  }

  /** What `parse_log` returns for a well-formed UTF-8 input. */
  function LogCommits(input: string): seq<CommitNode> {
    WithChildren(Decoded(Split(input, RecordSeparator)))
  }

  lemma {:induction false} ChildrenOfAppend(a: seq<(int, string)>, b: seq<(int, string)>, i: int)
    ensures ChildrenOf(a + b, i) == ChildrenOf(a, i) + ChildrenOf(b, i)
  {
    if b == [] {
      AppendEmpty(a);
    } else {
      var b' := b[..|b| - 1];
      InitOfAppend(a, b);
      ChildrenOfAppend(a, b', i);
    }
  }

  lemma {:induction false} ChildrenOfMember(links: seq<(int, string)>, i: int, x: string)
    ensures x in ChildrenOf(links, i) <==> (i, x) in links
  {
    if links != [] {
      var init := links[..|links| - 1];
      ChildrenOfMember(init, i, x);
      assert links == init + [links[|links| - 1]];
    }
  }

  lemma {:induction false} RowLinksMember(index: map<string, int>, parents: seq<string>, sha: string, e: (int, string))
    ensures e in RowLinks(index, parents, sha) <==>
      exists j :: 0 <= j < |parents| && parents[j] in index && e == (index[parents[j]], sha)
  {
    if parents != [] {
      var init := parents[..|parents| - 1];
      RowLinksMember(index, init, sha, e);
      assert forall j :: 0 <= j < |init| ==> init[j] == parents[j];
    }
  }

  lemma {:induction false} ChildLinksMember(commits: seq<CommitNode>, index: map<string, int>, n: nat, e: (int, string))
    requires n <= |commits|
    ensures e in ChildLinks(commits, index, n) <==>
      exists k, j :: 0 <= k < n && 0 <= j < |commits[k].parents| && commits[k].parents[j] in index &&
        e == (index[commits[k].parents[j]], commits[k].sha)
  {
    if n > 0 {
      ChildLinksMember(commits, index, n - 1, e);
      RowLinksMember(index, commits[n - 1].parents, commits[n - 1].sha, e);
    }
  }

  /**
   * The children index: `x` is a child of commit `i` exactly when some commit with sha `x`
   * lists the sha of commit `i` as a parent, and `i` is the last row holding that sha (a
   * duplicated sha collects its children on its last occurrence).
   */
  lemma ChildrenIndex(commits: seq<CommitNode>, i: nat, x: string)
    requires i < |commits|
    ensures x in WithChildren(commits)[i].children <==>
      IsLastRow(commits, i) &&
      exists k, j :: 0 <= k < |commits| && 0 <= j < |commits[k].parents| &&
        commits[k].parents[j] == commits[i].sha && commits[k].sha == x
  {
    var index := RowIndex(commits);
    ChildrenOfMember(ChildLinks(commits, index, |commits|), i, x);
    ChildLinksMember(commits, index, |commits|, (i, x));
    RowIndexLast(commits, i);
  }

  /** Children keep input order: those added by the first `m` commits come first. */
  lemma {:induction false} ChildrenInOrder(commits: seq<CommitNode>, index: map<string, int>, m: nat, n: nat, i: int)
    requires m <= n <= |commits|
    ensures ChildrenOf(ChildLinks(commits, index, m), i) <= ChildrenOf(ChildLinks(commits, index, n), i)
  {
    if m < n {
      var before := ChildLinks(commits, index, n - 1);
      var added := RowLinks(index, commits[n - 1].parents, commits[n - 1].sha);
      assert ChildLinks(commits, index, n) == before + added;
      ChildrenInOrder(commits, index, m, n - 1, i);
      ChildrenOfAppend(before, added, i);
      PrefixOfAppend(ChildrenOf(ChildLinks(commits, index, m), i), ChildrenOf(before, i), ChildrenOf(added, i));
    }
  }

  /** Every addition points at a row of the list when the index does. */
  lemma LinksInRange(commits: seq<CommitNode>, index: map<string, int>, n: nat)
    requires n <= |commits|
    requires forall s :: s in index ==> 0 <= index[s] < |commits|
    ensures forall e :: e in ChildLinks(commits, index, n) ==> 0 <= e.0 < |commits|
  {
    forall e | e in ChildLinks(commits, index, n)
      ensures 0 <= e.0 < |commits|
    {
      ChildLinksMember(commits, index, n, e);
    }
  }

  /** Every decoded commit has the shape of a freshly decoded record, without children. */
  lemma {:induction false} DecodedFresh(records: seq<string>)
    ensures forall c :: c in Decoded(records) ==> FreshlyDecoded(c)
  {
    if records != [] {
      DecodedFresh(records[..|records| - 1]);
      DecodeRecordRules(records[|records| - 1]);
    }
  }

  /** Appending every child to a commit list without children gives `WithChildren`. */
  lemma FilledIn(decoded: seq<CommitNode>, commits: seq<CommitNode>)
    requires forall c :: c in decoded ==> FreshlyDecoded(c)
    requires |commits| == |decoded|
    requires forall i :: 0 <= i < |decoded| ==>
      commits[i] == decoded[i].(children := decoded[i].children + ChildrenOf(ChildLinks(decoded, RowIndex(decoded), |decoded|), i))
    ensures commits == WithChildren(decoded)
  {
    var links := ChildLinks(decoded, RowIndex(decoded), |decoded|);
    forall i | 0 <= i < |decoded|
      ensures commits[i] == WithChildren(decoded)[i]
    {
      assert FreshlyDecoded(decoded[i]);
      assert decoded[i].children + ChildrenOf(links, i) == ChildrenOf(links, i);
    }
  }

  /** The body of the record loop of `parse_log`: decode one record and push its commit. */
  method PushRecord(commits: seq<CommitNode>, raw: string) returns (commits': seq<CommitNode>)
    ensures commits' == commits + RecordCommits(raw)
  {
    commits' := commits;
    var record := Trim(raw);
    if record == [] {
      return;
    }
    var fields := Split(record, FieldSeparator);
    assert DecodeRecord(raw) == DecodeFields(fields);
    if |fields| < 10 {
      return;
    }
    var sha := Trim(fields[0]);
    if sha == [] {
      return;
    }
    var decorate := if |fields| > 10 then fields[10] else "";
    var refs := ParseRefs(decorate);
    var node := CommitNode(
      sha, Trim(fields[1]), SplitWhitespace(fields[2]), [],
      fields[3], fields[4], ParseDate(fields[5]),
      fields[6], fields[7], ParseDate(fields[8]),
      fields[9], refs, -1, -1);
    assert DecodeFields(fields) == Some(node);
    commits' := commits' + [node];
  }

  /** `parse_log`, on input already decoded from UTF-8. */
  method ParseLog(input: string) returns (commits: seq<CommitNode>)
    ensures commits == LogCommits(input)
  {
    var records := Split(input, RecordSeparator);
    var decoded := DecodeRecords(records);
    var shaToIdx := RowIndex(decoded);
    var additions := CollectLinks(decoded, shaToIdx);
    LinksInRange(decoded, shaToIdx, |decoded|);
    commits := ApplyLinks(decoded, additions);
    DecodedFresh(records);
    FilledIn(decoded, commits);
  }

  /** The record loop of `parse_log`. */
  method DecodeRecords(records: seq<string>) returns (commits: seq<CommitNode>)
    ensures commits == Decoded(records)
  {
    commits := [];
    for k := 0 to |records|
      invariant commits == Decoded(records[..k])
    {
      FlatMapSnoc(RecordCommits, records, k);
      commits := PushRecord(commits, records[k]);
    }
    TakeAll(records);
  }

  /** The loop collecting the `(parent row, child sha)` pairs of `parse_log`. */
  method CollectLinks(commits: seq<CommitNode>, shaToIdx: map<string, int>) returns (additions: seq<(int, string)>)
    ensures additions == ChildLinks(commits, shaToIdx, |commits|)
  {
    additions := [];
    for k := 0 to |commits|
      invariant additions == ChildLinks(commits, shaToIdx, k)
    {
      var commit := commits[k];
      for j := 0 to |commit.parents|
        invariant additions == ChildLinks(commits, shaToIdx, k) + RowLinks(shaToIdx, commit.parents[..j], commit.sha)
      {
        TakeStep(commit.parents, j);
        var parent := commit.parents[j];
        if parent in shaToIdx {
          additions := additions + [(shaToIdx[parent], commit.sha)];
        }
      }
      TakeAll(commit.parents);
    }
  }

  /** The loop of `parse_log` appending each child sha to its parent's children. */
  method ApplyLinks(decoded: seq<CommitNode>, additions: seq<(int, string)>) returns (commits: seq<CommitNode>)
    requires forall e :: e in additions ==> 0 <= e.0 < |decoded|
    ensures |commits| == |decoded|
    ensures forall i :: 0 <= i < |decoded| ==>
      commits[i] == decoded[i].(children := decoded[i].children + ChildrenOf(additions, i))
  {
    commits := decoded;
    for m := 0 to |additions|
      invariant |commits| == |decoded|
      invariant forall i :: 0 <= i < |decoded| ==>
        commits[i] == decoded[i].(children := decoded[i].children + ChildrenOf(additions[..m], i))
    {
      TakeStep(additions, m);
      var (parentIdx, childSha) := additions[m];
      commits := commits[parentIdx := commits[parentIdx].(children := commits[parentIdx].children + [childSha])];
    }
    TakeAll(additions);
  }
}
