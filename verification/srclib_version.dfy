/**
 Choosing which commit's precomputed srclib analysis data may be reused for a
 (head commit, path) request: an exact match at the head first, otherwise a
 bounded search backwards through history that never goes past the last
 commit that touched the path.

 The two collaborators are abstract: the history provider answers "which
 commits at or before head touched this path" and "which commits lie between
 head and base", newest first; the version store answers "which of these
 commits have a srclib data version". Either may fail, and its failure is
 passed back to the caller unchanged.
 */
module SrclibVersion {
  import opened Wrappers

  /** An opaque commit id. The empty id is what the source uses for "no base". */
  type CommitId = string

  /** A path inside the repository; "." is the root, "" means "the whole repository". */
  type Path = string

  /** The failure a collaborator reported, carried through untouched. */
  type Cause = string

  type Reply<T> = Result<T, Cause>

  /** Go's int32, the type of the lookback limit and of CommitsBehind. */
  newtype int32 = x: int | -0x8000_0000 <= x < 0x8000_0000

  /**
   The history provider. `touching(head, path)` lists the commits at or before
   `head` that modified `path`, newest first. `log(head, base)` lists the
   commits reachable from `head` but not from `base` (all of them when `base`
   is empty), newest first; `base` itself is therefore excluded. Both lists are
   the full answer; a page of size n is its first n entries (see Page).
   */
  datatype History = History(
    touching: (CommitId, Path) -> Reply<seq<CommitId>>,
    log: (CommitId, CommitId) -> Reply<seq<CommitId>>)

  /**
   The version store of one repository: given commit ids, the commit ids of the
   srclib data versions recorded for them (in no particular order).
   */
  datatype VersionStore = VersionStore(versions: seq<CommitId> -> Reply<seq<CommitId>>)

  /** Why no version could be reused; only the kind matters to callers. */
  datatype NotFoundReason =
    | RootPath
    | NoPathHistory
    | ModifiedAtHead
    | NoBuiltCandidate(candidates: nat, versions: nat)

  /** The outcome of a resolution. A hit carries the commit and CommitsBehind. */
  datatype Resolution =
    | Exact(commit: CommitId)
    | Lookback(commit: CommitId, behind: int32)
    | NotFound(reason: NotFoundReason)
    | Upstream(cause: Cause)
  {
    /** Both kinds of hit, with the CommitsBehind value the caller sees. */
    predicate IsHit() { Exact? || Lookback? }
  }

  const Root: Path := "."
  const DefaultLookback: int32 := 250

  /** The lookback limit: the default, raised to the commit-log cache size when that is larger. */
  function LookbackLimit(cacheSize: int32): (limit: int32)
    ensures limit >= DefaultLookback && limit >= cacheSize
    ensures limit == DefaultLookback || limit == cacheSize
  {
    if cacheSize > DefaultLookback then cacheSize else DefaultLookback
  }

  /** One page of at most n entries of a newest-first listing. */
  function Page(xs: seq<CommitId>, n: nat): (p: seq<CommitId>)
    ensures p <= xs
    ensures |p| == if |xs| <= n then |xs| else n
  {
    if |xs| <= n then xs else xs[..n]
  }

  /**
   The commits to examine, nearest first: the listing truncated to the limit,
   followed by the base (when there is one), whatever the truncation dropped.
   */
  function Candidates(listed: seq<CommitId>, limit: nat, base: CommitId): (cands: seq<CommitId>)
    ensures |cands| == |Page(listed, limit)| + (if base == "" then 0 else 1)
    ensures forall k :: 0 <= k < |Page(listed, limit)| ==> cands[k] == listed[k]
    ensures base != "" ==> cands[|cands| - 1] == base
  {
    Page(listed, limit) + (if base == "" then [] else [base])
  }

  /** The set of commit ids that have a version, built from the store's answer. */
  function Built(vers: seq<CommitId>): (built: set<CommitId>)
    ensures forall c :: c in built <==> c in vers
  {
    set c | c in vers
  }

  /** No candidate has a version. */
  predicate NoneBuilt(cands: seq<CommitId>, built: set<CommitId>) {
    forall j :: 0 <= j < |cands| ==> cands[j] !in built
  }

  /** The index of the nearest candidate that has a version, if any. */
  function Nearest(cands: seq<CommitId>, built: set<CommitId>): (r: Option<nat>)
    ensures r.Some? ==> r.value < |cands| && cands[r.value] in built
    ensures r.Some? ==> NoneBuilt(cands[..r.value], built)
    ensures r.None? <==> NoneBuilt(cands, built)
  {
    if |cands| == 0 then None
    else if cands[0] in built then Some(0)
    else
      match Nearest(cands[1..], built)
      case None => None
      case Some(i) =>
        assert cands[1..][..i] == cands[1..i + 1];
        Some(i + 1)
  }

  /**
   What scanning the candidates between head and base may yield, stated
   without the scan: errors pass through, NotFound exactly when no candidate
   has a version, and a hit is the nearest candidate that has one, reported
   with its index as CommitsBehind.
   */
  ghost predicate ScanOutcome(h: History, st: VersionStore, limit: nat, head: CommitId, base: CommitId, r: Resolution) {
    match h.log(head, base)
    case Failure(e) => r == Upstream(e)
    case Success(listed) =>
      var cands := Candidates(listed, limit, base);
      match st.versions(cands)
      case Failure(e) => r == Upstream(e)
      case Success(vers) =>
        && (r.NotFound? <==> NoneBuilt(cands, Built(vers)))
        && (r.NotFound? ==> r.reason == NoBuiltCandidate(|cands|, |vers|))
        && (!r.NotFound? ==>
              && r.Lookback?
              && 0 <= r.behind as int < |cands|
              && r.commit == cands[r.behind]
              && r.commit in Built(vers)
              && NoneBuilt(cands[..r.behind], Built(vers)))
  }

  /** List the candidates between head and base, ask the store which have versions, pick the nearest. */
  function Scan(h: History, st: VersionStore, limit: int32, head: CommitId, base: CommitId): (r: Resolution)
    requires 0 <= limit
    ensures ScanOutcome(h, st, limit as nat, head, base, r)
  {
    match h.log(head, base)
    case Failure(e) => Upstream(e)
    case Success(listed) =>
      var cands := Candidates(listed, limit as nat, base);
      match st.versions(cands)
      case Failure(e) => Upstream(e)
      case Success(vers) =>
        match Nearest(cands, Built(vers))
        case None => NotFound(NoBuiltCandidate(|cands|, |vers|))
        case Some(i) => Lookback(cands[i], i as int32)
  }

  /** The last commit at or before head that touched path: one page of size one of the path's log. */
  function LastTouching(h: History, head: CommitId, path: Path): (r: Reply<Option<CommitId>>)
    ensures h.touching(head, path).Failure? <==> r.Failure?
    ensures r.Failure? ==> r.error == h.touching(head, path).error
    ensures r == Success(None) <==> h.touching(head, path) == Success([])
    ensures r.Success? && r.value.Some? ==> r.value.value == h.touching(head, path).value[0]
  {
    match h.touching(head, path)
    case Failure(e) => Failure(e)
    case Success(xs) =>
      var page := Page(xs, 1);
      if |page| != 1 then Success(None) else Success(Some(page[0]))
  }

  /**
   Everything the backward search may yield for a (head, path) request whose
   head has no exact version. For a named path the boundary is looked up first
   and the search stops when there is none or when it is head itself; for the
   empty path there is no boundary.
   */
  ghost predicate LookbackOutcome(h: History, st: VersionStore, limit: nat, head: CommitId, path: Path, r: Resolution) {
    if path == "" then ScanOutcome(h, st, limit, head, "", r)
    else
      match LastTouching(h, head, path)
      case Failure(e) => r == Upstream(e)
      case Success(None) => r == NotFound(NoPathHistory)
      case Success(Some(m)) =>
        if m == head then r == NotFound(ModifiedAtHead)
        else ScanOutcome(h, st, limit, head, m, r)
  }

  /** The backward search through history for a version usable at head for path. */
  function SearchBack(h: History, st: VersionStore, limit: int32, head: CommitId, path: Path): (r: Resolution)
    requires 0 <= limit
    ensures LookbackOutcome(h, st, limit as nat, head, path, r)
    ensures !r.Exact?
  {
    if path == "" then Scan(h, st, limit, head, "")
    else
      match LastTouching(h, head, path)
      case Failure(e) => Upstream(e)
      case Success(None) => NotFound(NoPathHistory)
      case Success(Some(m)) =>
        if m == head then NotFound(ModifiedAtHead)
        else Scan(h, st, limit, head, m)
  }

  /** The store found exactly one version for the head itself. */
  predicate HasExact(st: VersionStore, head: CommitId) {
    st.versions([head]).Success? && |st.versions([head]).value| == 1
  }

  /**
   The entry point: the exact version at head if there is one; otherwise
   NotFound for the root path, and the backward search for any other path.
   */
  function ResolveVersion(h: History, st: VersionStore, cacheSize: int32, head: CommitId, path: Path): (r: Resolution)
    ensures st.versions([head]).Failure? ==> r == Upstream(st.versions([head]).error)
    ensures HasExact(st, head) ==> r == Exact(st.versions([head]).value[0])
    ensures st.versions([head]).Success? && !HasExact(st, head) && path == Root ==> r == NotFound(RootPath)
    ensures st.versions([head]).Success? && !HasExact(st, head) && path != Root ==>
              LookbackOutcome(h, st, LookbackLimit(cacheSize) as nat, head, path, r)
    ensures r.Lookback? ==> 0 <= r.behind as int <= LookbackLimit(cacheSize) as int
  {
    match st.versions([head])
    case Failure(e) => Upstream(e)
    case Success(vers) =>
      if |vers| == 1 then Exact(vers[0])
      else if path == Root then NotFound(RootPath)
      else SearchBack(h, st, LookbackLimit(cacheSize), head, path)
  }
}
