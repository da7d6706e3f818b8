/**
 An in-memory history provider over a single line of commits (each commit's
 first parent is the next one), and what the resolver guarantees over it: a
 reused version comes from a commit between head and the last commit that
 touched the path, so the path's content there is the content at head.
 */
module LinearHistory {
  import opened Wrappers
  import opened SrclibVersion
  import opened SrclibProperties

  /** A commit on the line, with the set of paths it modified. */
  datatype Commit = Commit(id: CommitId, touched: set<Path>)

  /** Commit ids are non-empty and unique along the line. */
  predicate WellFormed(line: seq<Commit>) {
    && (forall k :: 0 <= k < |line| ==> line[k].id != "")
    && (forall i, j :: 0 <= i < j < |line| ==> line[i].id != line[j].id)
  }

  /** The index of the first commit with the given id; |line| when there is none. */
  function Position(line: seq<Commit>, id: CommitId): (p: nat)
    ensures p <= |line|
    ensures p < |line| ==> line[p].id == id
    ensures forall k :: 0 <= k < p ==> line[k].id != id
  {
    if |line| == 0 then 0
    else if line[0].id == id then 0
    else 1 + Position(line[1..], id)
  }

  /** The index of the first (newest) commit that modified path; |line| when none did. */
  function FirstTouch(line: seq<Commit>, path: Path): (m: nat)
    ensures m <= |line|
    ensures m < |line| ==> path in line[m].touched
    ensures forall k :: 0 <= k < m ==> path !in line[k].touched
  {
    if |line| == 0 then 0
    else if path in line[0].touched then 0
    else 1 + FirstTouch(line[1..], path)
  }

  /** The ids of the commits that modified path, newest first. */
  function Touching(line: seq<Commit>, path: Path): (t: seq<CommitId>)
    ensures |t| > 0 <==> FirstTouch(line, path) < |line|
    ensures |t| > 0 ==> t[0] == line[FirstTouch(line, path)].id
  {
    if |line| == 0 then []
    else if path in line[0].touched then [line[0].id] + Touching(line[1..], path)
    else Touching(line[1..], path)
  }

  /** The ids of the commits newer than the first one with id base: the range base..head. */
  function Until(line: seq<Commit>, base: CommitId): (u: seq<CommitId>)
    ensures |u| == Position(line, base)
    ensures forall k :: 0 <= k < |u| ==> u[k] == line[k].id
  {
    if |line| == 0 || line[0].id == base then []
    else [line[0].id] + Until(line[1..], base)
  }

  /** The history provider of the line: queries start at the commit named as head. */
  function LineHistory(line: seq<Commit>): History {
    History(
      (head, path) => Success(Touching(line[Position(line, head)..], path)),
      (head, base) => Success(Until(line[Position(line, head)..], base)))
  }

  /** On a well-formed line every commit is found at its own index. */
  lemma PositionOfOwnId(line: seq<Commit>, k: nat)
    requires WellFormed(line) && k < |line|
    ensures Position(line, line[k].id) == k
  {
  }

  /** Asked from the newest commit, the line history reports the first touching commit as the boundary. */
  lemma LineBoundary(line: seq<Commit>, path: Path)
    requires |line| > 0
    ensures Position(line, line[0].id) == 0
    ensures var m := FirstTouch(line, path);
      LastTouching(LineHistory(line), line[0].id, path)
        == if m < |line| then Success(Some(line[m].id)) else Success(None)
  {
    assert line[0..] == line;
  }

  /**
   The candidates examined over a line whose boundary is at index m > 0: the
   first min(m, limit) commits from head, then the boundary.
   */
  lemma LineCandidates(line: seq<Commit>, limit: nat, path: Path)
    requires |line| > 0 && WellFormed(line)
    requires 0 < FirstTouch(line, path) < |line|
    ensures var m := FirstTouch(line, path);
      var listed := LineHistory(line).log(line[0].id, line[m].id);
      && listed.Success?
      && var cands := Candidates(listed.value, limit, line[m].id);
      && |cands| == (if m <= limit then m else limit) + 1
      && (forall k :: 0 <= k < |cands| - 1 ==> cands[k] == line[k].id)
      && cands[|cands| - 1] == line[m].id
  {
    var m := FirstTouch(line, path);
    PositionOfOwnId(line, m);
    assert Position(line, line[0].id) == 0;
    assert line[0..] == line;
  }

  /** The backward search over a line, asked from its newest commit. */
  function LineSearch(line: seq<Commit>, built: set<CommitId>, limit: int32, path: Path): Resolution
    requires |line| > 0 && 0 <= limit
  {
    SearchBack(LineHistory(line), InMemory(built), limit, line[0].id, path)
  }

  /** A hit, or a miss after a scan, over a line means the scan started at a boundary strictly behind head. */
  lemma LineScanOutcome(line: seq<Commit>, built: set<CommitId>, limit: int32, path: Path)
    requires |line| > 0 && WellFormed(line) && path != "" && 0 <= limit
    ensures var r := LineSearch(line, built, limit, path);
      r.Lookback? || (r.NotFound? && r.reason.NoBuiltCandidate?) ==>
        && 0 < FirstTouch(line, path) < |line|
        && ScanOutcome(LineHistory(line), InMemory(built), limit as nat, line[0].id,
                       line[FirstTouch(line, path)].id, r)
  {
    LineBoundary(line, path);
  }

  /**
   Over a line, a lookback hit at index i of the candidates is the i-th commit
   when i is within the limit and before the boundary, and the boundary
   otherwise; every commit nearer than it lacks a version.
   */
  lemma LineHitIndex(line: seq<Commit>, built: set<CommitId>, limit: int32, path: Path)
    requires |line| > 0 && WellFormed(line) && path != "" && 0 <= limit
    ensures var r := LineSearch(line, built, limit, path);
      var m := FirstTouch(line, path);
      var w := if m <= limit as int then m else limit as int;
      r.Lookback? ==>
        var i := r.behind as int;
        && 0 < m < |line|
        && r.commit in built
        && (forall k :: 0 <= k < i ==> line[k].id !in built)
        && ((i < w && r.commit == line[i].id) || (i == w && r.commit == line[m].id))
  {
    var r := LineSearch(line, built, limit, path);
    if r.Lookback? {
      LineScanOutcome(line, built, limit, path);
      var m := FirstTouch(line, path);
      InMemoryHit(LineHistory(line), built, limit as nat, line[0].id, line[m].id, r);
      LineCandidates(line, limit as nat, path);
    }
  }

  /**
   Over a line, a lookback hit is a commit between head and the boundary: the
   path is unchanged from it up to head, it has a version, no nearer examined
   commit has one, and CommitsBehind is its true distance from head, except
   when it is the boundary found beyond the limit, where CommitsBehind is the
   limit instead.
   */
  lemma {:induction false} LineHitKeepsPath(line: seq<Commit>, built: set<CommitId>, limit: int32, path: Path)
    requires |line| > 0 && WellFormed(line) && path != "" && 0 <= limit
    ensures var r := LineSearch(line, built, limit, path);
      r.Lookback? ==>
        var j := Position(line, r.commit);
        && j < |line|
        && r.commit in built
        && j <= FirstTouch(line, path)
        && (forall k :: 0 <= k < j ==> path !in line[k].touched)
        && (forall k :: 0 <= k < r.behind as int ==> line[k].id !in built)
        && (r.behind as int == j || (j == FirstTouch(line, path) && r.behind == limit))
  {
    var r := LineSearch(line, built, limit, path);
    if r.Lookback? {
      var m := FirstTouch(line, path);
      var w := if m <= limit as int then m else limit as int;
      LineHitIndex(line, built, limit, path);
      var i := r.behind as int;
      if i < w {
        PositionOfOwnId(line, i);
      } else {
        PositionOfOwnId(line, m);
      }
    }
  }

  /**
   Over a line, a miss means that no examined commit has a version: neither
   the first `limit` commits before the boundary nor the boundary itself.
   */
  lemma {:induction false} LineMissMeansNoneExamined(line: seq<Commit>, built: set<CommitId>, limit: int32,
                                                     path: Path)
    requires |line| > 0 && WellFormed(line) && path != "" && 0 <= limit
    ensures var r := LineSearch(line, built, limit, path);
      r.NotFound? && r.reason.NoBuiltCandidate? ==>
        && 0 < FirstTouch(line, path) < |line|
        && line[FirstTouch(line, path)].id !in built
        && (forall k :: 0 <= k < FirstTouch(line, path) && k < limit as int ==> line[k].id !in built)
  {
    var r := LineSearch(line, built, limit, path);
    if r.NotFound? && r.reason.NoBuiltCandidate? {
      LineScanOutcome(line, built, limit, path);
      var m := FirstTouch(line, path);
      InMemoryMiss(LineHistory(line), built, limit as nat, line[0].id, line[m].id, r);
      LineCandidates(line, limit as nat, path);
    }
  }

  /** The resolver as a whole over a line: every hit keeps the path's content at head. */
  lemma ResolvedCommitKeepsPath(line: seq<Commit>, built: set<CommitId>, cacheSize: int32, path: Path)
    requires |line| > 0 && WellFormed(line) && path != ""
    ensures var r := ResolveVersion(LineHistory(line), InMemory(built), cacheSize, line[0].id, path);
      r.IsHit() ==>
        && r.commit in built
        && Position(line, r.commit) <= FirstTouch(line, path)
        && (forall k :: 0 <= k < Position(line, r.commit) ==> path !in line[k].touched)
  {
    var head := line[0].id;
    var r := ResolveVersion(LineHistory(line), InMemory(built), cacheSize, head, path);
    if r.Exact? {
      assert [head][1..] == [];
      assert Position(line, head) == 0;
    } else if r.Lookback? {
      if head in built {
        ExactMatchWins(LineHistory(line), built, cacheSize, head, path);
      }
      NoExactWithoutVersion(built, head);
      assert r == LineSearch(line, built, LookbackLimit(cacheSize), path);
      LineHitKeepsPath(line, built, LookbackLimit(cacheSize), path);
    }
  }

  /** Distinct non-empty ids for examples: the k-th id is k + 1 copies of 'c'. */
  function IdOf(k: nat): (id: CommitId)
    ensures |id| == k + 1
  {
    seq(k + 1, _ => 'c')
  }

  /** A line of n commits in which only the commit at index m modified path. */
  function Chain(n: nat, m: nat, path: Path): (line: seq<Commit>)
    ensures |line| == n && WellFormed(line)
    ensures forall k :: 0 <= k < n ==> line[k].id == IdOf(k)
    ensures forall k :: 0 <= k < n ==> (path in line[k].touched <==> k == m)
  {
    var line := seq(n, k requires 0 <= k < n => Commit(IdOf(k), if k == m then {path} else {}));
    assert forall i, j :: 0 <= i < j < n ==> |line[i].id| != |line[j].id|;
    line
  }

  /** Over a line, when the boundary has a version the search always hits, however small the limit. */
  lemma {:induction false} LineBoundaryBuiltHits(line: seq<Commit>, built: set<CommitId>, limit: int32, path: Path)
    requires |line| > 0 && WellFormed(line) && path != "" && 0 <= limit
    requires 0 < FirstTouch(line, path) < |line|
    requires line[FirstTouch(line, path)].id in built
    ensures LineSearch(line, built, limit, path).Lookback?
  {
    LineBoundary(line, path);
    var m := FirstTouch(line, path);
    var h := LineHistory(line);
    LineCandidates(line, limit as nat, path);
    var cands := Candidates(h.log(line[0].id, line[m].id).value, limit as nat, line[m].id);
    var vers := Keep(cands, built);
    assert cands[|cands| - 1] in Built(vers);
  }

  /** The example chains: the only commit touching the path is the one at index m. */
  lemma ChainBoundary(n: nat, m: nat, path: Path)
    requires m < n
    ensures FirstTouch(Chain(n, m, path), path) == m
  {
    var line := Chain(n, m, path);
    var f := FirstTouch(line, path);
    assert path in line[m].touched;
  }

  /**
   Head and the boundary five commits behind it, versions at the boundary and
   two commits behind head: the nearer one wins, two commits behind.
   */
  lemma NearerVersionWins(cacheSize: int32)
    ensures var line := Chain(6, 5, "a.go");
      ResolveVersion(LineHistory(line), InMemory({IdOf(5), IdOf(2)}), cacheSize, IdOf(0), "a.go")
        == Lookback(IdOf(2), 2)
  {
    var path := "a.go";
    var line := Chain(6, 5, path);
    var built := {IdOf(5), IdOf(2)};
    ChainBoundary(6, 5, path);
    var r := ResolveVersion(LineHistory(line), InMemory(built), cacheSize, IdOf(0), path);
    assert |IdOf(0)| != |IdOf(5)| && |IdOf(0)| != |IdOf(2)|;
    NoExactWithoutVersion(built, IdOf(0));
    var limit := LookbackLimit(cacheSize);
    assert r == LineSearch(line, built, limit, path);
    LineBoundaryBuiltHits(line, built, limit, path);
    LineHitKeepsPath(line, built, limit, path);
    assert r.commit == IdOf(2);
    PositionOfOwnId(line, 2);
  }

  /**
   A lookback limit of three and the boundary ten commits behind head, with
   the only version at the boundary: the boundary is found, and CommitsBehind
   is its index among the examined commits, three, not its distance of ten.
   */
  lemma BoundaryBeyondLimitReportsLimit()
    ensures var line := Chain(11, 10, "a.go");
      SearchBack(LineHistory(line), InMemory({IdOf(10)}), 3, IdOf(0), "a.go") == Lookback(IdOf(10), 3)
  {
    var path := "a.go";
    var line := Chain(11, 10, path);
    var built := {IdOf(10)};
    ChainBoundary(11, 10, path);
    var r := SearchBack(LineHistory(line), InMemory(built), 3, IdOf(0), path);
    LineBoundaryBuiltHits(line, built, 3, path);
    LineHitKeepsPath(line, built, 3, path);
    LineScanOutcome(line, built, 3, path);
    InMemoryHit(LineHistory(line), built, 3, IdOf(0), line[10].id, r);
    LineCandidates(line, 3, path);
    PositionOfOwnId(line, 10);
  }
}
