# Srclib data version lookback and code-view line tables, in Dafny

This project models two pieces of a code-hosting server.

**Srclib data version resolution** (`server/local/repos_srclib_version.go`).
A request names a head commit and a path. The resolver decides which commit's
precomputed srclib analysis data may be reused for that request:

- A version recorded exactly at the head wins, whatever the path.
- For the root path `"."`, nothing else is tried.
- For any other non-empty path, the resolver looks up the boundary. The
  boundary is the last commit at or before the head that touched the path.
  The search gives up when there is no boundary or when the boundary is the
  head itself.
- Otherwise it lists the commits from the head back to the boundary,
  truncated to the lookback limit. It then appends the boundary, asks the
  version store which candidates have a version, and returns the nearest one.
  The hit's index in the candidate list is reported as `CommitsBehind`.
- The empty path `""` has no boundary. It searches the first `limit` commits.

The history provider and the version store are abstract. Each is a datatype
of functions that can answer or fail (`SrclibVersion.History`,
`SrclibVersion.VersionStore`). An in-memory store (`SrclibProperties.InMemory`)
and an in-memory single-line history (`LinearHistory.LineHistory`) are used
to state what the resolver guarantees when history is a single line of
commits. There, every hit comes from a commit whose content at the path
equals the head's. With merges this no longer holds: the candidate range can
list side-branch commits that never saw the boundary's change, and
`MergeHistory.SideBranchCommitReturned` exhibits one.

**Line tables for highlighted code** (`cmd/frontend/internal/app/ui2/highlight.go`).
`PlainTable` splits unhighlighted code on newlines. It trims one trailing
carriage return per line and emits one numbered row per line, with the line
wrapped in a span. `PreSpansToTable` walks the children of the highlighter's
`<pre>` element. A span joins the current row's code cell, a text node opens
one row per newline it contains, and any other node is an error. HTML parsing
and rendering are abstracted away. The input is the parsed body's children as
a `Node` sequence. The output is a sequence of `Row(lineNo, code)`.

Three behaviours of the resolver's code are easy to misread, and the model
keeps each exactly as the code has it:

- Only the path `"."` short-circuits as the root. The empty path `""` goes
  into the lookback with no boundary.
- A boundary found beyond the lookback limit is reported with
  `CommitsBehind` equal to its index in the candidate list, which is the
  limit, not its distance from the head.
  `LinearHistory.BoundaryBeyondLimitReportsLimit` shows this: with a limit of
  3 and the boundary 10 commits back, `CommitsBehind` is 3.
- An exact match needs the store to return exactly one record for the head
  (`len(vers) == 1`). `SrclibVersion.HasExact` models that.

## Model

| member | source | states |
|---|---|---|
| SrclibVersion.ResolveVersion | server/local/repos_srclib_version.go:29-57 | store errors pass through; exactly one record at head gives Exact with that record, whatever the path; otherwise root is NotFound and any other path has exactly the lookback outcomes; CommitsBehind never exceeds the lookback limit |
| SrclibVersion.SearchBack | server/local/repos_srclib_version.go:60-161 | a failing path log passes through; no commit touching the path gives NotFound; a boundary equal to head gives NotFound; otherwise the nearest candidate with a version, or NotFound exactly when none has one; never an exact match |
| SrclibVersion.Scan | server/local/repos_srclib_version.go:108-160 | log and store failures pass through unchanged; NotFound exactly when no candidate is built, with the candidate and version counts; a hit is the candidate at index CommitsBehind, is built, and no earlier candidate is |
| SrclibVersion.LastTouching | server/local/repos_srclib_version.go:76-90 | the boundary is the first commit of the path's log; an empty log gives none; provider failures are kept |
| SrclibVersion.LookbackLimit | server/local/repos_srclib_version.go:102-106 | the limit is the larger of 250 and the cache size, so never below 250 |
| SrclibVersion.Page | server/local/repos_srclib_version.go:115-120 | a page of size n is a prefix of the listing of length min(n, listing length) |
| SrclibVersion.Candidates | server/local/repos_srclib_version.go:128-134 | candidates are the truncated listing in order, followed by the base when there is one, whatever the truncation dropped; nothing is appended for an empty base |
| SrclibVersion.Built | server/local/repos_srclib_version.go:149-152 | the version set holds exactly the commit ids the store returned |
| SrclibVersion.Nearest | server/local/repos_srclib_version.go:154-158 | returns the first index whose candidate is built, with none built before it; none exactly when no candidate is built |
| SrclibProperties.InMemory | server/local/repos_srclib_version.go:142-145 | an in-memory store answers every query with exactly the queried commits that are built |
| SrclibProperties.ExactMatchWins | server/local/repos_srclib_version.go:29-39 | a version at head is returned as Exact(head) for every path and cache size |
| SrclibProperties.NoExactWithoutVersion | server/local/repos_srclib_version.go:36-39 | without a version at head the in-memory store gives no exact match |
| SrclibProperties.RootIgnoresHistory | server/local/repos_srclib_version.go:41-46 | for the root without an exact match the result is NotFound for any history and any store answers beyond the head query, so the lookback is never used |
| SrclibProperties.ModifiedAtHeadListsNothing | server/local/repos_srclib_version.go:90-97 | when head last touched the path the result is NotFound whatever the commit log and batch answers, so no candidate list is used |
| SrclibProperties.BoundaryAlwaysExamined | server/local/repos_srclib_version.go:128-134 | when the boundary has a version and the log answers, the resolution is a lookback hit for every cache size |
| SrclibProperties.LogFailurePassesThrough | server/local/repos_srclib_version.go:124-126 | a failing candidate listing yields Upstream with the same cause, never NotFound |
| SrclibProperties.InMemoryHit | server/local/repos_srclib_version.go:149-157 | against an in-memory store a hit is built and every nearer candidate is not |
| SrclibProperties.InMemoryMiss | server/local/repos_srclib_version.go:159-160 | against an in-memory store NotFound means no candidate is built |
| LinearHistory.Touching | server/local/repos_srclib_version.go:76-83 | the path log of a line is non-empty exactly when some commit touches the path, and starts with the newest such commit |
| LinearHistory.Until | server/local/repos_srclib_version.go:109-123 | the range log of a line from head to base holds the line's commits in order, up to but excluding the base |
| LinearHistory.LineBoundary | server/local/repos_srclib_version.go:76-90 | on a line the boundary is the newest commit touching the path, or none |
| LinearHistory.LineCandidates | server/local/repos_srclib_version.go:109-134 | on a line the candidates are the first min(m, limit) commits from head, then the boundary at index m |
| LinearHistory.LineScanOutcome | server/local/repos_srclib_version.go:84-99 | a hit or a no-built-candidate miss on a line means the boundary lies strictly behind head and the scan ran from it |
| LinearHistory.LineHitIndex | server/local/repos_srclib_version.go:128-157 | a hit at index i is commit i within the limit or else the boundary, and no nearer commit has a version |
| LinearHistory.LineHitKeepsPath | server/local/repos_srclib_version.go:70-73 | a lookback hit lies between head and the boundary, the path is untouched from it to head, and CommitsBehind is its distance unless it is the boundary beyond the limit, then the limit |
| LinearHistory.LineMissMeansNoneExamined | server/local/repos_srclib_version.go:154-160 | a miss means neither the boundary nor any of the first limit commits has a version |
| LinearHistory.ResolvedCommitKeepsPath | server/local/repos_srclib_version.go:70-73 | every hit of the resolver over a line is built and no commit between it and head touched the path |
| LinearHistory.LineBoundaryBuiltHits | server/local/repos_srclib_version.go:128-134 | a boundary with a version is always found, however small the limit |
| LinearHistory.NearerVersionWins | server/local/repos_srclib_version.go:154-157 | with versions two commits back and at the boundary five back, the result is the nearer one with CommitsBehind 2 |
| LinearHistory.BoundaryBeyondLimitReportsLimit | server/local/repos_srclib_version.go:128-157 | with limit 3 and the only version at the boundary ten back, the boundary is found with CommitsBehind 3 |
| MergeHistory.SideBranchCommitReturned | server/local/repos_srclib_version.go:109-157 | with a merge, the range from the boundary to head also lists a side-branch commit that does not descend from the boundary, and the resolver returns it (Lookback of S, two behind) when it is the only one with a version |
| Lines.CountNewlines | cmd/frontend/internal/app/ui2/highlight.go:135 | the count is at most the length and is zero exactly when there is no newline |
| Lines.CountNewlinesExact | cmd/frontend/internal/app/ui2/highlight.go:135 | the count is exactly the number of newline characters in the text |
| Lines.Split | cmd/frontend/internal/app/ui2/highlight.go:154 | splitting gives one more piece than newlines, no piece contains a newline, and pieces only hold characters of the input |
| Lines.JoinSplit | cmd/frontend/internal/app/ui2/highlight.go:154 | joining the split pieces with newlines gives back the text |
| Lines.SplitJoin | cmd/frontend/internal/app/ui2/highlight.go:154 | splitting newline-free pieces joined with newlines gives back the pieces |
| Lines.TrimCR | cmd/frontend/internal/app/ui2/highlight.go:155 | exactly one trailing carriage return is removed when present, and nothing changes otherwise |
| Highlight.PlainTable | cmd/frontend/internal/app/ui2/highlight.go:152-173 | one row per newline plus one, numbered from 1, each code cell one span whose text is the k-th line minus at most one trailing carriage return |
| Highlight.PlainTableRoundTrip | cmd/frontend/internal/app/ui2/highlight.go:154-172 | for code without carriage returns the rows' line texts joined with newlines give back the code |
| Highlight.AppendToLast | cmd/frontend/internal/app/ui2/highlight.go:127-132 | adding a span touches only the current row, at the end of its code cell |
| Highlight.AddRows | cmd/frontend/internal/app/ui2/highlight.go:109-122 | c new rows are added after the existing ones, each numbered by the row count and empty, and earlier rows are unchanged |
| Highlight.Step | cmd/frontend/internal/app/ui2/highlight.go:126-138 | one node adds its newlines as rows, and a span joins the current row's cell |
| Highlight.StepGroups | cmd/frontend/internal/app/ui2/highlight.go:124-142 | after each step every code cell holds exactly the spans preceded by its line index of newlines, in order; a span joins only the current line and new rows are empty |
| Highlight.RepeatedSpansKeepTheirLines | cmd/frontend/internal/app/ui2/highlight.go:127-137 | equal spans are grouped by line, not by value: with one span, a newline, and the same span twice, line 0 holds it once and line 1 twice |
| Highlight.SpansFilter | cmd/frontend/internal/app/ui2/highlight.go:127-141 | a node is among the extracted spans exactly when it is a span element of the input |
| Highlight.StepCounts | cmd/frontend/internal/app/ui2/highlight.go:124-142 | each step keeps the row count at one plus the newlines seen, the numbering, and the spans in order |
| Highlight.StepWalks | cmd/frontend/internal/app/ui2/highlight.go:124-142 | one step extends the walked prefix by one allowed child |
| Highlight.WalkSiblings | cmd/frontend/internal/app/ui2/highlight.go:100-143 | succeeds exactly when all children are spans or text; then 1 + newlines rows numbered from 1, and the code cell of row k + 1 holds exactly the spans preceded by k newlines, in order; otherwise reports the first child that is neither |
| Highlight.PreSpansToTable | cmd/frontend/internal/app/ui2/highlight.go:84-150 | no body child, or a first child that is not a pre, fails with NoPre and that node; a pre with no child or a non-span first child fails with NoSpan and that node; otherwise the first disallowed child of the pre is reported, and success has the walk's rows and line grouping |

## Left out

- Access control and revision resolution (`server/local/repos_srclib_version.go:21-27`) are outside services. The head commit is taken as already resolved.
- Debug logging, gRPC status codes and error message text are left out. The result keeps only the outcome kind, the not-found reason with the candidate and version counts, and the upstream cause.
- Context cancellation and deadlines are concurrency plumbing. No cancelled outcome is modelled.
- The `localcli.Flags.CommitLogCacheSize` global is a parameter of `ResolveVersion`.
- Paging is modelled as the resolver taking the first n entries of the provider's full answer. A backend that ignores the page size is not modelled.
- Commit ids are opaque strings. As in the source, the empty id means "no base", so a boundary whose id is empty would not be appended.
- SrclibVersion.SearchBack: takes the lookback limit as a non-negative parameter. The source computes it inside the function. `ResolveVersion` passes `LookbackLimit(cacheSize)`, which is at least 250.
- `int32(i)` for CommitsBehind is modelled as an exact conversion. `ResolveVersion` states that the index never exceeds the int32 limit, so no wrap-around can happen.
- The syntax highlighter client, its 3-second timeout, the "invalid extension" fallback and the `init`/`env.Get` configuration (`highlight.go:17-62`) are network and configuration code.
- `html.Parse`, `html.Render` and their errors, HTML escaping, and the navigation from the document to the body (`highlight.go:85-90`, `145-149`, `175-179`) are library calls. The input is the body's children and the output is the row sequence.
- Line numbers are kept as numbers. Their decimal rendering by `fmt.Sprint` is not modelled.
- Detaching a span from its old parent and siblings (`highlight.go:129-131`) is pointer bookkeeping with no effect on the table's contents.
- LinearHistory.LineHitKeepsPath: the path-unchanged guarantee is proved only for a single line of commits. With merges the candidate range can list side-branch commits where the path differs from head, so no such guarantee holds in general.
- LinearHistory.ResolvedCommitKeepsPath: proved only for single-line histories, for the same reason. `MergeHistory.SideBranchCommitReturned` shows a merge history where the resolver returns a side-branch commit that never saw the boundary's change to the path.
