# Commit graph core: a Dafny model

This project models the Rust core behind a git history view:

- **Log parser.** It turns the raw `git log` output (records split by `\x1e`, fields by `\x00`) into commit nodes. It parses each record's `%d` ref decoration and builds the children index.
- **Graph layout engine.** It gives every commit a row and a lane, picks a colour, and emits one edge per parent.
- **Layout filters.**
  - The filter by author date keeps commits whose date lies between two bounds.
  - The filter by field keeps commits whose message, author or sha matches a pattern.
- **Blame parser.** It reads `git blame --incremental` output and produces blame entries.
- **Layout store.** It keeps computed layouts behind numeric handles, and serves the append, free and filter calls the extension makes on them.

Each source file has its own module:

| module | source | form |
|---|---|---|
| `Layout` (`layout.dfy`) | `core/src/graph/layout.rs` | methods with loops over lane tables, proved against `LayoutOf` and its lemmas |
| `LogParser` (`log_parser.dfy`) | `core/src/graph/parser.rs` | loop methods proved equal to recursive specification functions |
| `Filter`, `DateFilter`, `RegexFilter` | `core/src/filter/*.rs` | pure functions and lemmas |
| `BlameParser` (`blame_parser.dfy`) | `core/src/blame/parser.rs` | a line-by-line loop proved equal to a state machine (`Step`, `Run`) |
| `Store` (`store.dfy`) | `core/src/lib.rs` | the class `LayoutStore` with a `map` field and a handle counter |

Three modules hold shared pieces:

- `GraphTypes` and `BlameTypes` hold the records of `core/src/graph/types.rs` and `core/src/blame/types.rs`.
- `Text` holds the string operations the core borrows from Rust's standard library: `trim`, `split`, `split_whitespace`, `strip_prefix` and integer parsing.
- `Seqs` and `Wrappers` hold small generic lemmas and the `Option`/`Result` types.

The model follows the code as written, including these behaviours:

- An edge whose parent is not in the input keeps `to_row = -1` and its first-pass lane.
- A `refs/tags/X` decoration becomes a RemoteBranch, because it holds a `/`.
- A commit reached through its first parent keeps the colour it computed for itself; the parent is not recoloured.
- `append_to_layout` rebuilds commits from the stored nodes and recomputes the whole layout.
- The field filter's documentation mentions "committer", but the code matches only `message`, `subject`, `author`, `sha` and `hash`. Any other field name matches nothing; `RegexFilter.UnknownFieldIsEmpty` states this.

## Model

The lemmas below are stated about functions that define the source's behaviour directly:
- `BlameParser.IsShaHeader` is `is_sha_header` (core/src/blame/parser.rs:167-184);
- `BlameParser.ApplyField` is the key dispatch of the line loop (core/src/blame/parser.rs:111-135);
- `BlameParser.Step` and `BlameParser.Run` are one iteration of that loop and the loop over a prefix of the lines (core/src/blame/parser.rs:47-136);
- `LogParser.DecodeFields` decodes one record's fields (core/src/graph/parser.rs:169-216);
- `LogParser.ShapeOf` and `LogParser.ClassifyPart` classify one part of a decoration (core/src/graph/parser.rs:39-129);
- `LogParser.DecorationRefs` is the whole of `parse_refs` (core/src/graph/parser.rs:10-133);
- `Layout.Resolve` is the second-pass patch of one edge (core/src/graph/layout.rs:240-247);
- `Layout.Djb2` is the wrapping hash inside `hash_branch_name` (core/src/graph/layout.rs:6-12).

| member | source | states |
|---|---|---|
| Layout.Djb2ClosedForm | core/src/graph/layout.rs:6-12 | the wrapping djb2 accumulator (seed 5381, `h * 33 + b` in `u32`) equals `(5381 * 33^n + Σ b_i * 33^(n-1-i)) mod 2^32` |
| Layout.HashBranchName | core/src/graph/layout.rs:6-12 | the byte loop with wrapping arithmetic yields the palette index `BranchColor(name)`, which is below 12 |
| Layout.DetermineNodeType | core/src/graph/layout.rs:15-25 | the first ref that is a Head or a Stash decides the node type; the type is Normal exactly when there is none; WorkingTree is never produced |
| Layout.FirstBranchName | core/src/graph/layout.rs:37-42 | none exactly when no ref is a Branch or RemoteBranch; otherwise the name of the first such ref |
| Layout.DetermineColorIndex | core/src/graph/layout.rs:31-52 | the hash of the first branch-like ref's name if there is one; otherwise the colour recorded for the lane if any; otherwise the hash of the sha; below 12 whenever the recorded colours are |
| Layout.FirstFree | core/src/graph/layout.rs:89-99 | the lowest inactive lane, or the table length when every lane is active |
| Layout.AllocateLane | core/src/graph/layout.rs:89-99 | returns the first free lane (every lower lane is active), marks it active, and appends a lane when none is free; no other lane changes |
| Layout.FreeLane | core/src/graph/layout.rs:101-105 | marks the lane inactive when it is in range and leaves every other lane (and an out-of-range call) unchanged |
| Layout.ClaimLane | core/src/graph/layout.rs:115-123 | the commit takes its reserved lane, or else the first free lane, which is then reserved for its sha; the table stays valid |
| Layout.FollowFirstParent | core/src/graph/layout.rs:150-191 | the new table and the edge are exactly `FollowTable` and `FollowEdge`: a tracked first parent gets a Normal edge to its own lane in that lane's recorded colour (the commit's colour when none is recorded) and the commit's lane is freed; an untracked one inherits the commit's lane, with an edge straight down in the commit's colour; the commit's reservation is dropped, lane colours are untouched and the table stays valid |
| Layout.ReserveMergeParent | core/src/graph/layout.rs:194-228 | the new table and the edge are exactly `MergeStep` and `MergeEdge`: a tracked merge parent leaves the table unchanged and gets a Merge edge to its lane in that lane's recorded colour (else the commit's); an untracked one is given the lowest free lane, which is marked active, reserved for it and coloured `BranchColor(parent)`, the colour its edge carries; lanes of tracked shas do not move and the table stays valid |
| Layout.ReserveFreeLane | core/src/graph/layout.rs:211-216 | reserving the first free lane for an untracked sha keeps each tracked sha on an active lane of its own |
| Layout.MergeKeepsOccupied | core/src/graph/layout.rs:193-229 | merge reservations only take free lanes: every lane active before the merge parents stays active and keeps its recorded colour |
| Layout.LinkFreesOnlyOwnLane | core/src/graph/layout.rs:144-230 | the parent half of a row frees no lane but the commit's own, and that one only for a root commit or when the first parent is already tracked |
| Layout.ReserveMergeParents | core/src/graph/layout.rs:193-229 | the new table is the fold `MergeTable` of the merge step over `parents[1..]` in order, and the edges are `MergeEdges`, each drawn against the table before it; one Merge edge per parent after the first, each to the lane its target is reserved on |
| Layout.LinkParents | core/src/graph/layout.rs:144-230 | the new table is `LinkTable` and the edges `LinkEdges`: a root commit frees its lane and leaves the table; otherwise the first parent is followed and the merge parents folded in order; one pending edge per parent in parent order (Normal then Merge) |
| Layout.ProcessCommit | core/src/graph/layout.rs:108-231 | the node is `RowNode`: the commit's sha, metadata and node type at row `row`, on its reserved lane or else the lowest free one, in the colour `determine_color_index` picks from the lane colours; the table then holds that lane with the node's colour recorded (`Held`, the `lane_colors` insert of line 126), and the new table and the edges are `LinkTable` and `LinkEdges` of it; the lane table stays valid |
| Layout.RowNodeFor | core/src/graph/layout.rs:115-142 | the reference node of a row carries the commit's sha and metadata at that row, on a real lane, in the colour `determine_color_index` picks, a palette index |
| Layout.LinkTableSingle | core/src/graph/layout.rs:144-191 | for a commit with at most one parent, the parent half passes its lane to an untracked parent or releases it, and drops the commit's reservation |
| Layout.HeldLinkSingle | core/src/graph/layout.rs:115-191 | the same, stated against the table before the commit took its lane |
| Layout.FirstPassStep | core/src/graph/layout.rs:108-231 | a row laid out by the row rules (node, held lane with its colour, parent half) extends the reference first pass by one row |
| Layout.LayoutRow | core/src/graph/layout.rs:108-231 | one loop iteration extends the first-pass invariant from `row` rows to `row + 1`, and takes the state from `FirstPass(commits, row)` to `FirstPass(commits, row + 1)` |
| Layout.LinksOf | core/src/graph/layout.rs:144-230 | the links of one commit: link `j` goes to parent `j`, Normal for `j = 0` and Merge after |
| Layout.LinkPosition | core/src/graph/layout.rs:144-230 | the edge to parent `j` of row `i` sits at position `ParentCount(i) + j` of the edge list |
| Layout.LinksCount | core/src/graph/layout.rs:144-230 | the first `n` rows emit exactly as many edges as they have parents |
| Layout.LinksWellFormed | core/src/graph/layout.rs:144-230 | every link starts at a row below `n` and names a parent of that row |
| Layout.ResolveEdges | core/src/graph/layout.rs:233-248 | the second pass sets each edge's `to_row` from the sha-to-row map when the target is present, then takes `to_lane` from the node at that row; nothing else changes |
| Layout.ResolvedLinks | core/src/graph/layout.rs:233-248 | after the second pass, every pending edge is the resolved edge for its link |
| Layout.ComputeLayout | core/src/graph/layout.rs:63-255 | the result is `ReferenceLayout(commits)`, the row-by-row first pass with every edge resolved, so each node's lane and colour and each edge's lanes and colour are those of the row rules; empty input gives an empty layout with count 0; otherwise one node per commit in input order with row = position, one edge per parent (resolved or left at `-1`), and `total_count` = number of commits; a straight-line history stays on lane 0 |
| Layout.EdgeOfParent | core/src/graph/layout.rs:144-248 | the layout has exactly one edge per parent; the edge for parent `j` of row `i` runs from that row's node to that parent, with kind Normal or Merge by `j` |
| Layout.EdgeTarget | core/src/graph/layout.rs:233-248 | an edge has `to_row = -1` exactly when no commit has its target sha; otherwise it points at the last row with that sha and at that row's lane |
| Layout.ChainStep | core/src/graph/layout.rs:108-231 | on a straight-line history, each row takes lane 0 and leaves at most lane 0 reserved, for the next commit |
| Layout.LinearParentCount | core/src/graph/layout.rs:270-287 | in a linear history (each commit's only parent is the next commit, and the last commit has none), the first `n` rows below the last have `n` parents in all |
| Layout.LinearChained | core/src/graph/layout.rs:270-287 | a linear history (each commit's only parent is the next commit) is a chained history |
| Layout.LinearLayout | core/src/graph/layout.rs:270-287 | a linear history of `n` commits is chained, so `ComputeLayout` keeps it on lane 0, and its layout has `n - 1` edges |
| Layout.LinearLinks | core/src/graph/layout.rs:270-287 | a linear history of `n` commits has `n - 1` links |
| GraphTypes.RowIndex | core/src/graph/layout.rs:234-238 | the sha-to-row map holds every sha of the input and maps each sha to a row that carries it |
| GraphTypes.RowIndexLatest | core/src/graph/layout.rs:234-238 | collecting into the map keeps the last row of a duplicated sha |
| GraphTypes.RowIndexLast | core/src/graph/parser.rs:222-226 | the map sends a row's sha back to that row exactly when no later row has the same sha |
| LogParser.FindHead | core/src/graph/parser.rs:28-37 | the branch named by the first trimmed part reading `HEAD -> X`; none exactly when no part reads that way |
| LogParser.FindHeadBranch | core/src/graph/parser.rs:28-37 | the early-exit search loop returns `FindHead` of the parts |
| LogParser.ClassifyPartRules | core/src/graph/parser.rs:39-130 | an empty part yields no ref; `HEAD -> X` yields exactly Head and then the current branch X; otherwise one ref: Head named `HEAD` exactly for `HEAD`, a Tag exactly for `tag: `, a Stash named after the part for stash names not starting `tag: `; after those rules `refs/remotes/X` is the RemoteBranch X, `refs/heads/X` the Branch X, any other name holding `/` a RemoteBranch and a plain name a Branch, both named by the part; current only for `HEAD` or for the branch `head_branch` names |
| LogParser.PushPartRefs | core/src/graph/parser.rs:40-53 | one loop iteration appends exactly the refs of its trimmed part |
| LogParser.PushMarkedRef | core/src/graph/parser.rs:55-81 | a `HEAD -> X` part appends Head then the current branch X; a `tag: X` part appends a Tag named by the trimmed rest |
| LogParser.PushNamedRef | core/src/graph/parser.rs:83-102 | a stash name appends a Stash ref; `refs/remotes/X` appends a RemoteBranch X |
| LogParser.PushBranchRef | core/src/graph/parser.rs:104-129 | `refs/heads/X` and plain names append a Branch, current when it is `head_branch`; any other name holding `/` appends a RemoteBranch |
| LogParser.PushPart | core/src/graph/parser.rs:39-130 | after `k + 1` parts, the accumulated refs are those of the first `k + 1` parts |
| LogParser.PartsRefsSnoc | core/src/graph/parser.rs:39-130 | the refs of a part list grow by the refs of each next part, so refs keep part order |
| LogParser.PartsLoop | core/src/graph/parser.rs:39-132 | the part loop returns the refs of every part in order |
| LogParser.OnlyHeadsAreCurrent | core/src/graph/parser.rs:39-130 | only Head and Branch refs can be marked as the current head |
| LogParser.RefsOfCurrent | core/src/graph/parser.rs:47-128 | in every shape of part, the refs marked current are Head or Branch refs |
| LogParser.ParseRefs | core/src/graph/parser.rs:10-133 | a blank decoration gives no refs; otherwise trim, strip one pair of enclosing parentheses, split on `,`, find `head_branch` (only when `HEAD -> ` occurs) and classify every part in order |
| LogParser.ParseDate | core/src/graph/parser.rs:190 | a date field is its trimmed text parsed as `u64`, or 0; always at most `u64::MAX` |
| LogParser.DecodeFieldsRules | core/src/graph/parser.rs:169-216 | a field list decodes exactly when it has at least ten fields and a non-blank sha; the commit has a trimmed sha, whitespace-free parent tokens, no children, and lane and row -1 |
| LogParser.DecodeRecordRules | core/src/graph/parser.rs:162-178 | a record is skipped exactly when, once trimmed, it is empty, has fewer than ten NUL-separated fields, or has a blank sha |
| LogParser.DecodedAppend | core/src/graph/parser.rs:162-219 | records decode independently: the commits of `a + b` are those of `a` followed by those of `b` |
| LogParser.DecodeEncodeRecord | core/src/graph/parser.rs:135-216 | a commit with no refs (decoration field empty), its fields free of NUL, written in the documented eleven-field format (parents space-joined, dates in decimal) decodes back to itself |
| LogParser.EncodedRecordSplits | core/src/graph/parser.rs:163-169 | trimming leaves an encoded record unchanged, and splitting it on NUL gives back its fields |
| LogParser.EncodedFieldsClean | core/src/graph/parser.rs:169 | no encoded field contains the NUL separator |
| LogParser.EncodedRecordTrimmed | core/src/graph/parser.rs:163 | an encoded record starts with the sha's first character and ends with a NUL, so `trim` leaves it unchanged |
| LogParser.DecodeEncodedFields | core/src/graph/parser.rs:175-216 | the eleven encoded fields decode to the commit they came from |
| LogParser.ParseDateOfDecimal | core/src/graph/parser.rs:190-194 | a date written in decimal parses back to itself |
| LogParser.SeparatorNotInUnwords | core/src/graph/parser.rs:182-186 | space-joined parent shas contain no NUL |
| LogParser.DigitsHaveNoSeparator | core/src/graph/parser.rs:190-194 | a decimal date field contains no NUL |
| LogParser.JoinEndsWithEmpty | core/src/graph/parser.rs:198 | a NUL-joined field list that ends with an empty decoration field ends in NUL |
| LogParser.DecodedFresh | core/src/graph/parser.rs:201-216 | every decoded commit has a non-blank sha, no children, and lane and row -1 |
| LogParser.PushRecord | core/src/graph/parser.rs:162-219 | one iteration of the record loop appends the decoded commit, or nothing for a skipped record |
| LogParser.DecodeRecords | core/src/graph/parser.rs:162-219 | the record loop returns the decoded commits of all records, in order |
| LogParser.CollectLinks | core/src/graph/parser.rs:229-236 | collects `(parent row, child sha)` for every parent found in the sha-to-row map, commit by commit and parent by parent |
| LogParser.LinksInRange | core/src/graph/parser.rs:229-236 | every collected parent row is a row of the commit list |
| LogParser.ApplyLinks | core/src/graph/parser.rs:238-240 | each commit's children grow by the child shas collected for its row, in collection order |
| LogParser.WithChildren | core/src/graph/parser.rs:221-240 | filling in children keeps the number of commits |
| LogParser.FilledIn | core/src/graph/parser.rs:221-240 | the commits after the children pass are exactly `WithChildren` of the decoded commits |
| LogParser.ChildrenOfAppend | core/src/graph/parser.rs:238-240 | the children a row collects from `a + b` are those from `a` followed by those from `b` |
| LogParser.ChildrenOfMember | core/src/graph/parser.rs:238-240 | `x` is a collected child of row `i` exactly when `(i, x)` was collected |
| LogParser.RowLinksMember | core/src/graph/parser.rs:231-235 | one commit adds `(i, sha)` exactly when one of its parents maps to row `i` |
| LogParser.ChildLinksMember | core/src/graph/parser.rs:229-236 | `(i, x)` is collected exactly when some commit with sha `x` has a parent that maps to row `i` |
| LogParser.ChildrenIndex | core/src/graph/parser.rs:221-240 | `x` is a child of commit `i` exactly when some commit `x` lists commit `i`'s sha as a parent and `i` is the last row with that sha |
| LogParser.ChildrenInOrder | core/src/graph/parser.rs:229-240 | children are listed in the order their commits appear: those of earlier commits come first |
| LogParser.ParseLog | core/src/graph/parser.rs:153-243 | the whole parse (split records, decode, children index) returns `LogCommits(input)` |
| Filter.Matching | core/src/filter/date_filter.rs:13-23 | the matching sha set: only shas of the layout's nodes, each node that passes contributes its sha, and each sha has a passing node |
| Filter.Restrict | core/src/filter/date_filter.rs:25-45 | keeps exactly the nodes whose sha is chosen and the edges whose two ends are chosen, and recounts: `total_count` = number of kept nodes |
| Filter.KeptNodesMembers | core/src/filter/date_filter.rs:25-30 | a node is kept exactly when it is in the input and its sha is chosen |
| Filter.KeptEdgesMembers | core/src/filter/date_filter.rs:32-37 | an edge is kept exactly when it is in the input and both its ends are chosen |
| Filter.KeptNodesAppend | core/src/filter/date_filter.rs:25-30 | node filtering distributes over concatenation, so kept nodes keep their order |
| Filter.KeptEdgesAppend | core/src/filter/date_filter.rs:32-37 | edge filtering distributes over concatenation, so kept edges keep their order |
| Filter.KeptNodesAll | core/src/filter/date_filter.rs:25-30 | when every node's sha is chosen, the node list comes back unchanged |
| Filter.KeptNodesTwice | core/src/filter/date_filter.rs:25-30 | filtering nodes twice by the same set is filtering once |
| Filter.KeptEdgesTwice | core/src/filter/date_filter.rs:32-37 | filtering edges twice by the same set is filtering once |
| Filter.RestrictTwice | core/src/filter/date_filter.rs:32-45 | restricting twice to the same sha set is restricting once |
| Filter.MatchingKeptCovers | core/src/filter/date_filter.rs:13-30 | every matching sha still matches among the kept nodes |
| Filter.MatchingKeptWithin | core/src/filter/date_filter.rs:13-30 | a sha that matches among the kept nodes matched before |
| Filter.MatchingOfKept | core/src/filter/date_filter.rs:13-30 | the kept nodes match exactly the same shas as the input nodes |
| Filter.RestrictMatchingTwice | core/src/filter/date_filter.rs:13-45 | filtering a filtered layout again by the same node test returns it unchanged |
| Filter.RestrictClosed | core/src/filter/date_filter.rs:25-37 | after a restriction to shas of the layout's own nodes, both ends of every kept edge are kept nodes |
| Filter.RestrictShas | core/src/filter/date_filter.rs:25-30 | the shas of the kept nodes are exactly the chosen shas that occur in the layout |
| DateFilter.DateMatches | core/src/filter/date_filter.rs:13-23 | the shas of the nodes whose author date is at least `after` (when `after` is nonzero) and at most `before` (when `before` is nonzero), and only those |
| DateFilter.FilterByDate | core/src/filter/date_filter.rs:8-46 | keeps exactly the nodes whose sha has an in-range node, and the edges with both ends among those shas; `total_count` = number of kept nodes |
| DateFilter.FilterByDateUnique | core/src/filter/date_filter.rs:13-30 | with unique shas, a node is kept exactly when its own author date is within the bounds |
| DateFilter.NoBoundsKeepsAll | core/src/filter/date_filter.rs:149-154 | bounds 0 and 0 keep every node in order, count them all, and keep every edge whose two ends are layout nodes |
| DateFilter.FilterByDateIdempotent | core/src/filter/date_filter.rs:8-46 | filtering twice by the same bounds is filtering once |
| DateFilter.FilterByDateClosed | core/src/filter/date_filter.rs:32-37 | the filtered layout has no dangling edge |
| DateFilter.NarrowerKeepsLess | core/src/filter/date_filter.rs:16-21 | a narrower window keeps no node that the wider one drops |
| RegexFilter.FieldMatches | core/src/filter/regex_filter.rs:16-29 | the shas of the nodes whose selected field the compiled pattern matches, and only those |
| RegexFilter.FilterByField | core/src/filter/regex_filter.rs:9-52 | an error exactly when the pattern does not compile; otherwise keeps exactly the nodes whose sha matched, and the edges with both ends matched; `total_count` = number of kept nodes |
| RegexFilter.FieldAliases | core/src/filter/regex_filter.rs:20-24 | "message" and "subject" select the subject, "author" the author name, "sha" and "hash" the sha; no other name selects a field |
| RegexFilter.UnknownFieldIsEmpty | core/src/filter/regex_filter.rs:20-45 | any other field name, "committer" included, gives an empty layout with count 0 |
| RegexFilter.KeptNothing | core/src/filter/regex_filter.rs:31-43 | restricting to no sha keeps no node and no edge |
| RegexFilter.FilterByFieldUnique | core/src/filter/regex_filter.rs:16-36 | with unique shas, a node is kept exactly when its own field matches |
| RegexFilter.FilterByFieldIdempotent | core/src/filter/regex_filter.rs:9-52 | filtering twice by the same field and pattern is filtering once |
| RegexFilter.FilterByFieldClosed | core/src/filter/regex_filter.rs:38-43 | the filtered layout has no dangling edge |
| BlameParser.NonHexIsNotHeader | core/src/blame/parser.rs:174-180 | a line whose first word holds a non-hex character within its first 40 is not a sha header |
| BlameParser.KeyLineIsNotHeader | core/src/blame/parser.rs:191-201 | a line starting with a key such as `author ` or `summary ` is not a sha header |
| BlameParser.HeaderDefaults | core/src/blame/parser.rs:86-102 | a header sets the 40-hex-digit sha and the two line numbers it parsed; the line count defaults to 1 when absent or unparsable; every other field is cleared |
| BlameParser.ApplyFieldKeepsHeader | core/src/blame/parser.rs:111-135 | no key line changes the sha or the line numbers |
| BlameParser.KeysDiffer | core/src/blame/parser.rs:111-135 | a line starting with one key cannot start with a key that differs from it at a shared position |
| BlameParser.AuthorKeys | core/src/blame/parser.rs:112-120 | `author-mail` sets the email with angle brackets stripped; `author-time` sets the date (0 when unparsable); `author-tz` changes nothing; `author ` sets the name |
| BlameParser.NotAuthorKey | core/src/blame/parser.rs:112-120 | a line starting with another key does not start with any author key |
| BlameParser.CommitterKeys | core/src/blame/parser.rs:121-128 | the same rules for `committer-mail`, `committer-time`, `committer-tz` and `committer ` |
| BlameParser.NotPersonKey | core/src/blame/parser.rs:112-128 | a `summary `/`filename `/`previous `/`boundary` line starts with no author or committer key |
| BlameParser.OtherKeys | core/src/blame/parser.rs:129-135 | `summary ` sets the summary and `filename ` the filename; `previous ` and `boundary` lines change nothing |
| BlameParser.MailAddressOfBracketed | core/src/blame/parser.rs:114 | stripping angle brackets recovers an address written as `<e>` |
| BlameParser.ShortSha | core/src/blame/parser.rs:67-71 | the short sha is the first 7 characters, or the whole sha when it is shorter |
| BlameParser.EmitWellFormed | core/src/blame/parser.rs:64-84 | an emitted entry has a 40-hex-digit sha, its 7-character short sha and a non-empty filename |
| BlameParser.RunWellFormed | core/src/blame/parser.rs:47-136 | along the loop, every emitted entry is well formed and an open entry came from a header |
| BlameParser.EntriesWellFormed | core/src/blame/parser.rs:24-162 | every entry of the parse is well formed: entries without a filename are dropped |
| BlameParser.ScanLine | core/src/blame/parser.rs:48-135 | one iteration of the line loop performs exactly one state-machine step |
| BlameParser.RunStep | core/src/blame/parser.rs:47-136 | the state after `i + 1` lines is one step from the state after `i` |
| BlameParser.ParseBlameOutput | core/src/blame/parser.rs:24-162 | the loop over lines, followed by the final emit, returns `BlameEntries(input)` |
| BlameParser.EmptyInput | core/src/blame/parser.rs:220-224 | empty input gives no entries |
| BlameParser.StepKeepsPrefix | core/src/blame/parser.rs:47-136 | a step never changes entries that were already emitted |
| BlameParser.RunFromHeader | core/src/blame/parser.rs:62-105 | a header closes everything before it: the state after `a + b` is `a`'s entries followed by the run of `b` |
| BlameParser.StepHeader | core/src/blame/parser.rs:62-105 | a header line emits the open entry when it has a sha and a filename, and opens a fresh entry from the header |
| BlameParser.HeaderCloses | core/src/blame/parser.rs:62-105 | a header after any lines closes their entries and continues exactly as a header read from the start would |
| BlameParser.FinalEmit | core/src/blame/parser.rs:138-159 | after the last line, the open entry is added when it has a sha and a filename |
| BlameParser.ChunksIndependent | core/src/blame/parser.rs:62-105 | no value leaks across a header: the entries of `a + b`, when `b` starts with a header, are those of `a` followed by those of `b` |
| BlameParser.NoHeaderNoState | core/src/blame/parser.rs:107-109 | lines before any header leave the parser in its start state |
| BlameParser.PreambleIgnored | core/src/blame/parser.rs:107-109 | everything before the first header is ignored |
| BlameParser.RunSameSuffix | core/src/blame/parser.rs:47-136 | the parse depends only on the state reached: equal states stay equal under the same following lines |
| BlameParser.SkippedLineIgnored | core/src/blame/parser.rs:48-57 | an empty line or a tab-prefixed content line may be removed anywhere without changing the entries |
| Store.NextHandle | core/src/lib.rs:37-45 | the next handle is the current one plus 1 in wrapping `u32`, with 0 skipped: it is never 0 and differs from the current one |
| Store.HandleAfter | core/src/lib.rs:30-45 | the handle the `k`-th insert returns is between 1 and `u32::MAX` |
| Store.HandleAfterClosedForm | core/src/lib.rs:37-45 | the `k`-th insert returns `k mod (2^32 - 1) + 1` |
| Store.HandlesDistinct | core/src/lib.rs:37-45 | the first `2^32 - 1` inserts return pairwise distinct handles |
| Store.HandlesRepeat | core/src/lib.rs:37-45 | after `2^32 - 1` inserts the counter comes back to the first handle |
| Store.RebuiltCommits | core/src/lib.rs:175-190 | one commit per stored node, each carrying that node's fields |
| Store.UniqueNew | core/src/lib.rs:149-160 | the new commits whose sha is not stored, no more than there were |
| Store.UniqueNewMembers | core/src/lib.rs:149-160 | a new commit is kept exactly when its sha is not among the stored shas |
| Store.UniqueNewAppend | core/src/lib.rs:149-160 | de-duplication keeps the order of the new commits |
| Store.AppendKeepsStored | core/src/lib.rs:175-204 | after an append, each stored commit keeps its row and its sha, subject, author, date, refs and parents, and every new row is a sha that was not stored |
| Store.LayoutStore.constructor | core/src/lib.rs:30-35 | an empty store whose first handle is 1 |
| Store.LayoutStore.Insert | core/src/lib.rs:37-45 | stores the layout under the current handle and advances the counter with `NextHandle` |
| Store.LayoutStore.Get | core/src/lib.rs:47-49 | the stored layout exactly when the handle is present |
| Store.LayoutStore.Replace | core/src/lib.rs:51-53 | overwrites the layout of a present handle and reports whether it was present; an absent handle leaves the store unchanged |
| Store.LayoutStore.Remove | core/src/lib.rs:55-57 | drops the handle and reports whether it was present |
| Store.LayoutStore.ComputeGraphLayout | core/src/lib.rs:95-109 | parses the log, lays it out (`LayoutOf` the parsed commits, and exactly their `ReferenceLayout`), and stores the result under a new handle |
| Store.Relayout | core/src/lib.rs:175-199 | the stored commits rebuilt from their nodes, followed by the new commits with unseen shas, are laid out again; the result is the reference layout of that combined list |
| Store.LayoutStore.AppendToLayout | core/src/lib.rs:118-213 | an unknown handle is an error and changes nothing; when no new sha arrives, the stored layout is returned unchanged; otherwise the stored commits plus the new ones are laid out again (exactly their reference layout) and stored under the same handle |
| Store.LayoutStore.FreeLayout | core/src/lib.rs:219-223 | the handle is gone afterwards, whether or not it existed |
| Store.LayoutStore.FilterCommits | core/src/lib.rs:240-256 | an unknown handle is an error; otherwise the field filter of the stored layout, with the pattern error passed through |
| Store.LayoutStore.FilterByDate | core/src/lib.rs:263-277 | an unknown handle is an error; otherwise the date filter of the stored layout |
| Store.FreedHandleIsInvalid | core/src/lib.rs:288-307 | storing a layout, freeing its handle and then filtering on it gives the invalid-handle error |

## Left out

- UTF-8 decoding of the raw byte inputs is not modelled. Inputs are modelled as strings, so the branch that returns an empty result for invalid UTF-8 is absent.
- The regex engine (`Regex::new`, `is_match`) is outside the model. A pattern is given as what compiling it produced: `None` for a compile error, or an opaque matcher `string -> bool`.
- JSON serialisation (serde) is not modelled, and neither is the formatting of error strings. Errors are the constants "Invalid handle" and "Invalid regex pattern", without the handle number or the regex error text.
- `parse_blame` in `core/src/lib.rs` is not modelled: it only serialises the result of `parse_blame_output`, which is modelled.
- The global `OnceLock<Mutex<…>>` and lock poisoning are not modelled. The store is a single object.
- Store.LayoutStore.Insert: after `2^32 - 1` inserts, a live handle is reused and its layout overwritten. The model states the wrap-around (`HandlesRepeat`) and the overwrite, but does not forbid it, because the code does not.
- `str::lines` is modelled as a split on `\n` followed by `trim_end`. The code's extra handling of a `\r\n` pair follows from `trim_end` removing the `\r`.
- Widths:
  - Integer widths (`i32` lanes and rows, `u32` line numbers and handles, `u64` dates) are unbounded `int`/`nat`.
  - Wrap-around is modelled where the code relies on it: the branch-name hash and the handle counter.
  - Parsing is bounded by `u32::MAX`/`u64::MAX`, as `str::parse` is.
  - The `as i32` casts of row numbers are not modelled; they overflow only past 2^31 commits.
- Strings are sequences of Unicode scalar values. Byte-level operations are modelled through an explicit UTF-8 encoding: the branch-name hash reads a name's UTF-8 bytes.
- The `wasm_bindgen` exports and the remaining modules of the repository are not part of this model.
- LogParser.DecodeEncodeRecord: the `%d` decoration is not round-tripped (the round trip covers commits without refs), because classification loses information: `refs/heads/X` and `X` both become the Branch X.
- LogParser.ParseRefs is stated against the recursive definition `PartsRefs`. Order is proved one part at a time (`PartsRefsSnoc`); no separate lemma about splitting a part list is given.
