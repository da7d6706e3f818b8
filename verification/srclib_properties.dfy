/**
 Properties of the resolver over every history provider, and over a version
 store backed by an in-memory set of built commits.
 */
module SrclibProperties {
  import opened Wrappers
  import opened SrclibVersion

  /** The commits of q that are in built, in q's order. */
  function Keep(q: seq<CommitId>, built: set<CommitId>): (kept: seq<CommitId>)
    ensures forall c :: c in kept <==> c in q && c in built
    ensures |kept| <= |q|
  {
    if |q| == 0 then []
    else (if q[0] in built then [q[0]] else []) + Keep(q[1..], built)
  }

  /** A version store that answers every query from a fixed set of built commits. */
  function InMemory(built: set<CommitId>): (st: VersionStore)
    ensures forall q :: st.versions(q) == Success(Keep(q, built))
  {
    VersionStore(q => Success(Keep(q, built)))
  }

  /** Exact-match priority: a version at head is returned with distance 0, whatever the path. */
  lemma ExactMatchWins(h: History, built: set<CommitId>, cacheSize: int32, head: CommitId, path: Path)
    requires head in built
    ensures ResolveVersion(h, InMemory(built), cacheSize, head, path) == Exact(head)
  {
    assert Keep([head], built) == [head] by {
      assert [head][1..] == [];
    }
  }

  /** Without a version at head, the in-memory store never reports an exact match. */
  lemma NoExactWithoutVersion(built: set<CommitId>, head: CommitId)
    requires head !in built
    ensures !HasExact(InMemory(built), head)
    ensures InMemory(built).versions([head]).Success?
  {
    assert [head][1..] == [];
  }

  /**
   The root never looks back: without an exact match the result is NotFound
   and depends neither on the history provider nor on any store query other
   than the one for head.
   */
  lemma RootIgnoresHistory(h1: History, h2: History, st1: VersionStore, st2: VersionStore,
                           cacheSize: int32, head: CommitId)
    requires st1.versions([head]) == st2.versions([head])
    requires st1.versions([head]).Success? && !HasExact(st1, head)
    ensures ResolveVersion(h1, st1, cacheSize, head, Root) == NotFound(RootPath)
    ensures ResolveVersion(h2, st2, cacheSize, head, Root) == NotFound(RootPath)
  {
  }

  /**
   When the path was last modified by head itself, the search stops before any
   candidate list is requested: the result is NotFound whatever the commit log
   and the store's answers to batch queries.
   */
  lemma ModifiedAtHeadListsNothing(h1: History, h2: History, st1: VersionStore, st2: VersionStore,
                                   cacheSize: int32, head: CommitId, path: Path)
    requires h1.touching == h2.touching
    requires st1.versions([head]) == st2.versions([head])
    requires st1.versions([head]).Success? && !HasExact(st1, head)
    requires path != Root && path != ""
    requires LastTouching(h1, head, path) == Success(Some(head))
    ensures ResolveVersion(h1, st1, cacheSize, head, path) == NotFound(ModifiedAtHead)
    ensures ResolveVersion(h2, st2, cacheSize, head, path) == NotFound(ModifiedAtHead)
  {
    assert LastTouching(h2, head, path) == LastTouching(h1, head, path);
  }

  /**
   The boundary is always examined: when the path was last modified by an
   earlier commit m that has a version, and the history answers, the result
   is a hit whatever the lookback limit truncated; the hit is no farther than m.
   */
  lemma BoundaryAlwaysExamined(h: History, built: set<CommitId>, cacheSize: int32,
                               head: CommitId, path: Path, m: CommitId)
    requires head !in built && m in built
    requires path != Root && path != ""
    requires LastTouching(h, head, path) == Success(Some(m)) && m != head && m != ""
    requires h.log(head, m).Success?
    ensures ResolveVersion(h, InMemory(built), cacheSize, head, path).Lookback?
  {
    NoExactWithoutVersion(built, head);
    var st := InMemory(built);
    var limit := LookbackLimit(cacheSize) as nat;
    var cands := Candidates(h.log(head, m).value, limit, m);
    var vers := Keep(cands, built);
    assert cands[|cands| - 1] == m;
    assert m in Built(vers);
    assert !NoneBuilt(cands, Built(vers));
  }

  /**
   Errors are never turned into NotFound: a failing history provider or store
   makes the resolution fail with that very cause.
   */
  lemma LogFailurePassesThrough(h: History, st: VersionStore, cacheSize: int32,
                                head: CommitId, path: Path, m: CommitId, cause: Cause)
    requires st.versions([head]).Success? && !HasExact(st, head)
    requires path != Root && path != ""
    requires LastTouching(h, head, path) == Success(Some(m)) && m != head
    requires h.log(head, m) == Failure(cause)
    ensures ResolveVersion(h, st, cacheSize, head, path) == Upstream(cause)
  {
  }

  /**
   Nearest wins, against an in-memory store: a hit is a candidate that is
   built, at index CommitsBehind, and no nearer candidate is built.
   */
  lemma InMemoryHit(h: History, built: set<CommitId>, limit: nat, head: CommitId, base: CommitId, r: Resolution)
    requires ScanOutcome(h, InMemory(built), limit, head, base, r) && r.Lookback?
    ensures h.log(head, base).Success?
    ensures var cands := Candidates(h.log(head, base).value, limit, base);
      && r.behind as int < |cands|
      && r.commit == cands[r.behind]
      && r.commit in built
      && (forall k :: 0 <= k < r.behind as int ==> cands[k] !in built)
  {
    var cands := Candidates(h.log(head, base).value, limit, base);
    var vers := Keep(cands, built);
    assert forall k :: 0 <= k < r.behind as int ==> cands[..r.behind][k] == cands[k];
  }

  /** A miss against an in-memory store: no candidate is built. */
  lemma InMemoryMiss(h: History, built: set<CommitId>, limit: nat, head: CommitId, base: CommitId, r: Resolution)
    requires ScanOutcome(h, InMemory(built), limit, head, base, r) && r.NotFound?
    ensures h.log(head, base).Success?
    ensures var cands := Candidates(h.log(head, base).value, limit, base);
      forall k :: 0 <= k < |cands| ==> cands[k] !in built
  {
  }
}
