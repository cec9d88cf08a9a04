/** The process tree 1 -> {2, 3}, 2 -> {4}, searched from 1, once with every
    executable allowed and once with process 4 running gopls. */
module Scenario {
  import opened Processes
  import opened ProcessIndex
  import opened DeepestChild
  import opened WindowPid
  import opened WorkingDirectory

  function P(pid: int, ppid: int, exe: string): (p: Proc) {
    Proc(pid, Some(ppid), Some(exe), Some([exe]), Some("/home/user"))
  }

  /** The snapshot, in enumeration order; `exe4` is process 4's executable. */
  function Tree(exe4: string): (s: Snapshot) {
    [P(1, 0, "/bin/bash"), P(2, 1, "/bin/bash"), P(3, 1, "/bin/bash"), P(4, 2, exe4)]
  }

  function TreeIndex(exe4: string): (ix: Index) {
    var s := Tree(exe4);
    Index(map[0 := [s[0]], 1 := [s[1], s[2]], 2 := [s[3]]],
          map[1 := [s[0]], 2 := [s[1]], 3 := [s[2]], 4 := [s[3]]])
  }

  const TreeRank: map<int, nat> := map[1 := 2, 2 := 1, 3 := 0, 4 := 0]

  lemma TreePrefixes(exe4: string)
    ensures var s := Tree(exe4);
      && s[..1][..0] == s[..0] == [] && s[..2][..1] == s[..1] && s[..3][..2] == s[..2] && s[..3] == s[..|s| - 1]
      && s[..1] == [s[0]] && s[..2] == [s[0], s[1]] && s[..3] == [s[0], s[1], s[2]]
      && (forall i :: 0 <= i < |s| ==> s[i].ppid.Some?)
  {
  }

  lemma TreeByPpid(exe4: string)
    ensures GroupBy(Tree(exe4), PpidOf) == TreeIndex(exe4).byPpid
  {
    var s := Tree(exe4);
    TreePrefixes(exe4);
    assert [] + [s[0]] == [s[0]] && [] + [s[1]] == [s[1]] && [] + [s[3]] == [s[3]];
    assert [s[1]] + [s[2]] == [s[1], s[2]];
    assert GroupBy(s[..0], PpidOf) == map[];
    var g1 := GroupBy(s[..1], PpidOf);
    assert g1 == map[][0 := [s[0]]];
    var g2 := GroupBy(s[..2], PpidOf);
    assert g2 == g1[1 := [s[1]]];
    var g3 := GroupBy(s[..3], PpidOf);
    assert g3 == g2[1 := [s[1], s[2]]];
    assert GroupBy(s, PpidOf) == g3[2 := [s[3]]];
  }

  lemma TreeByPid(exe4: string)
    ensures GroupBy(Tree(exe4), PidOf) == TreeIndex(exe4).byPid
  {
    var s := Tree(exe4);
    TreePrefixes(exe4);
    assert [] + [s[0]] == [s[0]] && [] + [s[1]] == [s[1]] && [] + [s[2]] == [s[2]] && [] + [s[3]] == [s[3]];
    assert GroupBy(s[..0], PidOf) == map[];
    var h1 := GroupBy(s[..1], PidOf);
    assert h1 == map[][1 := [s[0]]];
    var h2 := GroupBy(s[..2], PidOf);
    assert h2 == h1[2 := [s[1]]];
    var h3 := GroupBy(s[..3], PidOf);
    assert h3 == h2[3 := [s[2]]];
    assert GroupBy(s, PidOf) == h3[4 := [s[3]]];
  }

  /** The hand-written index is the one grouping builds. */
  lemma TreeIndexIsBuilt(exe4: string)
    ensures BuildIndex(Tree(exe4)) == Ok(TreeIndex(exe4))
  {
    TreePrefixes(exe4);
    TreeByPpid(exe4);
    TreeByPid(exe4);
  }

  lemma TreeRanked(exe4: string)
    ensures RankedBy(TreeIndex(exe4), TreeRank)
  {
  }

  /** Searching from process 1 with nothing denylisted finds process 4 at
      depth 2, the end of the longest path 1 -> 2 -> 4. */
  lemma ScenarioAllAllowed()
    ensures RankedBy(TreeIndex("/bin/bash"), TreeRank)
    ensures Deepest(TreeIndex("/bin/bash"), AllowedPids(TreeIndex("/bin/bash")), 1, TreeRank) == Found(4, 2)
  {
    var ix := TreeIndex("/bin/bash");
    var a := AllowedPids(ix);
    TreeRanked("/bin/bash");
    FilterExamples(ix.byPid[4][0]);
    FilterExamples(ix.byPid[2][0]);
    assert 4 in a;
    assert Deepest(ix, a, 4, TreeRank) == Found(4, 0);
    assert Deepest(ix, a, 3, TreeRank) == Found(3, 0);
    assert ChildResults(ix, a, 2, TreeRank) == [Found(4, 0)];
    assert [Found(4, 0)][..0] == [];
    assert Deepest(ix, a, 2, TreeRank) == Found(4, 1);
    var rs := ChildResults(ix, a, 1, TreeRank);
    assert rs == [Found(4, 1), Found(3, 0)];
    assert rs[..1] == [Found(4, 1)] && rs[..1][..0] == [];
    assert Best(a, Found(1, 0), rs[..1]) == Found(4, 1);
    assert Best(a, Found(1, 0), rs) == Found(4, 1);
  }

  /** With gopls as process 4, node 2 falls back to itself as (2, 1), and the
      search from 1 returns (2, 2): the depth still counts the link to 4. */
  lemma ScenarioGoplsDenied()
    ensures RankedBy(TreeIndex("/usr/bin/gopls"), TreeRank)
    ensures Deepest(TreeIndex("/usr/bin/gopls"), AllowedPids(TreeIndex("/usr/bin/gopls")), 1, TreeRank) == Found(2, 2)
  {
    var ix := TreeIndex("/usr/bin/gopls");
    var a := AllowedPids(ix);
    TreeRanked("/usr/bin/gopls");
    FilterExamples(ix.byPid[4][0]);
    FilterExamples(ix.byPid[2][0]);
    assert 4 !in a;
    assert 2 in a;
    assert Deepest(ix, a, 4, TreeRank) == Found(4, 0);
    assert Deepest(ix, a, 3, TreeRank) == Found(3, 0);
    assert ChildResults(ix, a, 2, TreeRank) == [Found(4, 0)];
    assert [Found(4, 0)][..0] == [];
    assert Deepest(ix, a, 2, TreeRank) == Found(2, 1);
    var rs := ChildResults(ix, a, 1, TreeRank);
    assert rs == [Found(2, 1), Found(3, 0)];
    assert rs[..1] == [Found(2, 1)] && rs[..1][..0] == [];
    assert Best(a, Found(1, 0), rs[..1]) == Found(2, 1);
    assert Best(a, Found(1, 0), rs) == Found(2, 1);
  }

  /** A root whose process has exited while a child still names it as parent:
      the child's executable cannot be read and no ranking is given, yet the
      search fails cleanly at the lookup of the root (line 65). */
  method OrphanedRootNotFound() returns (r: Result<Found>)
    ensures r == Err(ProcessNotFound(7))
  {
    var s := [Proc(8, Some(7), None, Some([]), Some("/"))];
    var built := BuildIndex(s);
    assert s[0].ppid.Some?;
    LookupTakesFirst(s, 7);
    r := FindDeepestChild(built.value, 7, map[]);
  }

  /** The whole lookup on a window whose process has exited: the PID decodes,
      the snapshot indexes, and the search root has no record. */
  method OrphanedWindowNotFound() returns (r: Result<string>)
    ensures r == Err(ProcessNotFound(7))
  {
    var s := [Proc(8, Some(7), None, Some([]), Some("/"))];
    var reply := PropertyReply(1, PidBytes(7));
    PidFromReplyRoundTrip(7, 1);
    assert s[0].ppid.Some?;
    LookupTakesFirst(s, 7);
    r := GetCurrentWorkingDirectory(reply, s, map[]);
  }
}
