/**
 A history with a merge, where the candidate range is wider than the commits
 that descend from the boundary. The main line is A <- B <- C <- M, where B
 modified the path, and M also merges a side branch A <- S. The range from
 the boundary B to M then lists M, C and also S, whose parent is A, so S never
 saw B's change to the path.
 */
module MergeHistory {
  import opened Wrappers
  import opened SrclibVersion
  import opened SrclibProperties

  /**
   The provider's answers for that history: the path log from M is B, then A;
   the range from B to M is M, C, S, newest first. Every other query is empty.
   */
  function SideBranchHistory(): (h: History)
    ensures h.touching("M", "p") == Success(["B", "A"])
    ensures h.log("M", "B") == Success(["M", "C", "S"])
  {
    History(
      (head, path) => if head == "M" && path == "p" then Success(["B", "A"]) else Success([]),
      (head, base) => if head == "M" && base == "B" then Success(["M", "C", "S"]) else Success([]))
  }

  /**
   With a version only at the side-branch commit S, the resolver reuses S for
   the path, two commits behind head, although S does not descend from the
   last commit that modified the path.
   */
  lemma SideBranchCommitReturned()
    ensures ResolveVersion(SideBranchHistory(), InMemory({"S"}), 0, "M", "p") == Lookback("S", 2)
  {
    var h := SideBranchHistory();
    var st := InMemory({"S"});
    NotExactAtMerge();
    assert LastTouching(h, "M", "p") == Success(Some("B"));
    SideBranchScan();
  }

  /** The merge commit M itself has no version. */
  lemma NotExactAtMerge()
    ensures InMemory({"S"}).versions(["M"]) == Success([])
  {
    assert ["M"][1..] == [];
    assert "M" != "S";
  }

  /** The scan from M back to B examines M, C, S, B and stops at S. */
  lemma SideBranchScan()
    ensures Scan(SideBranchHistory(), InMemory({"S"}), 250, "M", "B") == Lookback("S", 2)
  {
    var cands := Candidates(["M", "C", "S"], 250, "B");
    assert cands == ["M", "C", "S", "B"];
    assert "M" != "S" && "C" != "S";
    var built := Built(Keep(cands, {"S"}));
    assert "S" in built && "M" !in built && "C" !in built;
    assert cands[1..] == ["C", "S", "B"] && cands[1..][1..] == ["S", "B"];
    assert Nearest(cands, built) == Some(2);
  }
}
