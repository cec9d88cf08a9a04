/** `findDeepestChild`: the depth-first search for the deepest allowed
    descendant of a process, with its depth bookkeeping and tie-break. */
module DeepestChild {
  import opened Processes
  import opened ProcessIndex

  /** A search result: a PID and the depth reported for it. */
  datatype Found = Found(pid: int, depth: nat)

  /** Acyclicity of the parent links below the ranked PIDs: a child of a
      ranked PID is ranked strictly lower. The model's termination measure. */
  ghost predicate RankedBy(ix: Index, rank: map<int, nat>) {
    forall q, i :: q in rank && 0 <= i < |ix.Children(q)| ==>
      ix.Children(q)[i].pid in rank && rank[ix.Children(q)[i].pid] < rank[q]
  }

  /** `isProcAllowed(procsByPID[pid][0])`, false when it could not be evaluated. */
  predicate AllowedPid(ix: Index, pid: int) {
    pid in ix.byPid && ix.byPid[pid] != [] && ix.byPid[pid][0].exe.Some? && IsProcAllowed(ix.byPid[pid][0])
  }

  /** The indexed PIDs that pass the filter. */
  ghost function AllowedPids(ix: Index): set<int> {
    set q | q in ix.byPid && AllowedPid(ix, q)
  }

  /** The record the search reads for `pid` can be read in full (or `pid` is not indexed). */
  ghost predicate ReadableAt(ix: Index, pid: int) {
    pid in ix.byPid ==> ix.byPid[pid] != [] && Readable(ix.byPid[pid][0])
  }

  /** Every process the search visits from `pid` can be read in full. */
  ghost predicate SubtreeReadable(ix: Index, pid: int, rank: map<int, nat>)
    requires RankedBy(ix, rank) && pid in rank
    decreases rank[pid]
  {
    && ReadableAt(ix, pid)
    && forall i :: 0 <= i < |ix.Children(pid)| ==> SubtreeReadable(ix, ix.Children(pid)[i].pid, rank)
  }

  /** Every process in the subtree of `pid` passes the filter. */
  ghost predicate SubtreeAllowed(ix: Index, allowed: set<int>, pid: int, rank: map<int, nat>)
    requires RankedBy(ix, rank) && pid in rank
    decreases rank[pid]
  {
    && pid in allowed
    && forall i :: 0 <= i < |ix.Children(pid)| ==> SubtreeAllowed(ix, allowed, ix.Children(pid)[i].pid, rank)
  }

  /** `to` is reached from `from` by following `d` parent-to-child links. */
  ghost predicate Reaches(ix: Index, from: int, to: int, d: nat, rank: map<int, nat>)
    requires RankedBy(ix, rank) && from in rank
    decreases rank[from]
  {
    if d == 0 then to == from
    else exists i :: 0 <= i < |ix.Children(from)| && Reaches(ix, ix.Children(from)[i].pid, to, d - 1, rank)
  }

  function Max(xs: seq<nat>): (m: nat)
    requires xs != []
    ensures forall i :: 0 <= i < |xs| ==> xs[i] <= m
    ensures exists i :: 0 <= i < |xs| && xs[i] == m
  {
    if |xs| == 1 then xs[0]
    else
      var m := Max(xs[1..]);
      assert forall i :: 1 <= i < |xs| ==> xs[i] == xs[1..][i - 1];
      if xs[0] >= m then xs[0] else m
  }

  /** The height of the subtree of `pid`: the length of its longest downward path. */
  ghost function Height(ix: Index, pid: int, rank: map<int, nat>): (h: nat)
    requires RankedBy(ix, rank) && pid in rank
    decreases rank[pid], 1
  {
    if |ix.Children(pid)| == 0 then 0 else 1 + Max(ChildHeights(ix, pid, rank))
  }

  ghost function ChildHeights(ix: Index, pid: int, rank: map<int, nat>): (hs: seq<nat>)
    requires RankedBy(ix, rank) && pid in rank
    ensures |hs| == |ix.Children(pid)|
    decreases rank[pid], 0
  {
    var cs := ix.Children(pid);
    seq(|cs|, i requires 0 <= i < |cs| => Height(ix, cs[i].pid, rank))
  }

  /** One iteration of the loop at lines 79-86: a child's result `r` replaces
      the running best when it is at least as deep and passes the filter. */
  function Step(allowed: set<int>, best: Found, r: Found): (next: Found) {
    if r.depth >= best.depth && r.pid in allowed then r else best
  }

  /** The running best after the loop has processed the child results `rs`. */
  function Best(allowed: set<int>, init: Found, rs: seq<Found>): (b: Found)
    decreases |rs|
  {
    if rs == [] then init else Step(allowed, Best(allowed, init, rs[..|rs| - 1]), rs[|rs| - 1])
  }

  /** What `findDeepestChild(pid)` returns (lines 63-88). */
  ghost function Deepest(ix: Index, allowed: set<int>, pid: int, rank: map<int, nat>): (r: Found)
    requires RankedBy(ix, rank) && pid in rank
    decreases rank[pid], 1
  {
    if |ix.Children(pid)| == 0 then Found(pid, 0)
    else
      var b := Best(allowed, Found(pid, 0), ChildResults(ix, allowed, pid, rank));
      Found(b.pid, b.depth + 1)
  }

  /** The results of the recursive calls on the children of `pid`, in order. */
  ghost function ChildResults(ix: Index, allowed: set<int>, pid: int, rank: map<int, nat>): (rs: seq<Found>)
    requires RankedBy(ix, rank) && pid in rank
    ensures |rs| == |ix.Children(pid)|
    decreases rank[pid], 0
  {
    var cs := ix.Children(pid);
    seq(|cs|, i requires 0 <= i < |cs| => Deepest(ix, allowed, cs[i].pid, rank))
  }

  /** `rs[j]` is allowed, as deep as every allowed candidate and strictly
      deeper than every later allowed one: the last of the deepest. */
  predicate LastDeepest(allowed: set<int>, rs: seq<Found>, j: int) {
    && 0 <= j < |rs| && rs[j].pid in allowed
    && (forall k :: 0 <= k < |rs| && rs[k].pid in allowed ==> rs[k].depth <= rs[j].depth)
    && (forall k :: j < k < |rs| && rs[k].pid in allowed ==> rs[k].depth < rs[j].depth)
  }

  /** The fold keeps the LAST of the deepest allowed candidates: either no
      allowed candidate is as deep as `init` and `init` stays, or the result is
      the candidate at some index j that is allowed, at least as deep as `init`
      and every allowed candidate, and strictly deeper than every later one. */
  lemma {:induction false} BestIsLastDeepestAllowed(allowed: set<int>, init: Found, rs: seq<Found>)
    ensures var b := Best(allowed, init, rs);
      || (b == init && forall k :: 0 <= k < |rs| && rs[k].pid in allowed ==> rs[k].depth < init.depth)
      || exists j :: LastDeepest(allowed, rs, j) && b == rs[j] && rs[j].depth >= init.depth
    decreases |rs|
  {
    if rs != [] {
      var n := |rs| - 1;
      var front := rs[..n];
      BestIsLastDeepestAllowed(allowed, init, front);
      var b' := Best(allowed, init, front);
      assert forall k :: 0 <= k < n ==> rs[k] == front[k];
      var r := rs[n];
      if b' == init && forall k :: 0 <= k < n && front[k].pid in allowed ==> front[k].depth < init.depth {
        if r.depth >= b'.depth && r.pid in allowed {
          assert Best(allowed, init, rs) == r;
          assert LastDeepest(allowed, rs, n);
        } else {
          assert Best(allowed, init, rs) == init;
          assert forall k :: 0 <= k < |rs| && rs[k].pid in allowed ==> rs[k].depth < init.depth;
        }
      } else {
        var j :| LastDeepest(allowed, front, j) && b' == front[j] && front[j].depth >= init.depth;
        if r.depth >= b'.depth && r.pid in allowed {
          assert Best(allowed, init, rs) == r;
          assert LastDeepest(allowed, rs, n);
        } else {
          assert Best(allowed, init, rs) == rs[j];
          assert LastDeepest(allowed, rs, j);
        }
      }
    }
  }

  /** The fold's result is `init` or one of the allowed candidates. */
  lemma BestIsCandidate(allowed: set<int>, init: Found, rs: seq<Found>)
    ensures var b := Best(allowed, init, rs);
      b == init || exists j :: 0 <= j < |rs| && b == rs[j] && rs[j].pid in allowed
    ensures Best(allowed, init, rs).depth >= init.depth
  {
    BestIsLastDeepestAllowed(allowed, init, rs);
  }

  /** Started from depth 0, the fold either keeps `init` because no candidate
      is allowed, or keeps the last of the deepest allowed candidates. */
  lemma BestFromDepthZero(allowed: set<int>, init: Found, rs: seq<Found>)
    requires init.depth == 0
    ensures var b := Best(allowed, init, rs);
      || (b == init && forall k :: 0 <= k < |rs| ==> rs[k].pid !in allowed)
      || exists j :: LastDeepest(allowed, rs, j) && b == rs[j]
  {
    BestIsLastDeepestAllowed(allowed, init, rs);
  }

  /** When every candidate is allowed, the fold picks one of maximal depth. */
  lemma BestWhenAllAllowed(allowed: set<int>, init: Found, rs: seq<Found>, hs: seq<nat>)
    requires init.depth == 0 && |rs| == |hs| > 0
    requires forall k :: 0 <= k < |rs| ==> rs[k].pid in allowed && rs[k].depth == hs[k]
    ensures exists j :: 0 <= j < |rs| && Best(allowed, init, rs) == rs[j] && rs[j].depth == Max(hs)
  {
    BestFromDepthZero(allowed, init, rs);
    assert rs[0].pid in allowed;
    var j :| LastDeepest(allowed, rs, j) && Best(allowed, init, rs) == rs[j];
    var jm :| 0 <= jm < |hs| && hs[jm] == Max(hs);
    assert rs[jm].depth <= rs[j].depth;
  }

  /** Every result lies in the subtree of the node it was computed for, the
      number of links to it is at most the reported depth, and it is the node
      itself or an allowed process. */
  lemma {:induction false} DeepestInSubtree(ix: Index, allowed: set<int>, pid: int, rank: map<int, nat>)
    requires ix.Valid() && RankedBy(ix, rank) && pid in rank
    ensures var r := Deepest(ix, allowed, pid, rank);
      && (r.pid == pid || r.pid in allowed)
      && r.pid in rank
      && exists d: nat :: d <= r.depth && Reaches(ix, pid, r.pid, d, rank)
    ensures pid in ix.byPid ==> Deepest(ix, allowed, pid, rank).pid in ix.byPid
    decreases rank[pid]
  {
    var cs := ix.Children(pid);
    var r := Deepest(ix, allowed, pid, rank);
    if |cs| == 0 {
      assert Reaches(ix, pid, pid, 0, rank);
    } else {
      var rs := ChildResults(ix, allowed, pid, rank);
      BestIsCandidate(allowed, Found(pid, 0), rs);
      var b := Best(allowed, Found(pid, 0), rs);
      if b == Found(pid, 0) {
        assert Reaches(ix, pid, pid, 0, rank);
      } else {
        var j :| 0 <= j < |rs| && b == rs[j] && rs[j].pid in allowed;
        DeepestInSubtree(ix, allowed, cs[j].pid, rank);
        var d: nat :| d <= rs[j].depth && Reaches(ix, cs[j].pid, rs[j].pid, d, rank);
        assert Reaches(ix, pid, r.pid, d + 1, rank);
      }
    }
  }

  /** The result of a process visited in a readable subtree can itself be read. */
  lemma {:induction false} DeepestReadable(ix: Index, allowed: set<int>, pid: int, rank: map<int, nat>)
    requires ix.Valid() && RankedBy(ix, rank) && pid in rank
    requires pid in ix.byPid && SubtreeReadable(ix, pid, rank)
    ensures var r := Deepest(ix, allowed, pid, rank); r.pid in ix.byPid && Readable(ix.byPid[r.pid][0])
    decreases rank[pid]
  {
    var cs := ix.Children(pid);
    if |cs| > 0 {
      var rs := ChildResults(ix, allowed, pid, rank);
      BestIsCandidate(allowed, Found(pid, 0), rs);
      var b := Best(allowed, Found(pid, 0), rs);
      if b != Found(pid, 0) {
        var j :| 0 <= j < |rs| && b == rs[j] && rs[j].pid in allowed;
        DeepestReadable(ix, allowed, cs[j].pid, rank);
      }
    }
  }

  /** Depth bookkeeping: a leaf returns itself at depth 0 whether or not it
      passes the filter; a node with children reports at least 1 and at most
      the height of its subtree, even when it falls back to itself. */
  lemma {:induction false} DeepestDepthBounds(ix: Index, allowed: set<int>, pid: int, rank: map<int, nat>)
    requires RankedBy(ix, rank) && pid in rank
    ensures |ix.Children(pid)| == 0 ==> Deepest(ix, allowed, pid, rank) == Found(pid, 0)
    ensures |ix.Children(pid)| > 0 ==> 1 <= Deepest(ix, allowed, pid, rank).depth <= Height(ix, pid, rank)
    decreases rank[pid]
  {
    var cs := ix.Children(pid);
    if |cs| > 0 {
      var rs := ChildResults(ix, allowed, pid, rank);
      var hs := ChildHeights(ix, pid, rank);
      BestIsCandidate(allowed, Found(pid, 0), rs);
      var b := Best(allowed, Found(pid, 0), rs);
      if b != Found(pid, 0) {
        var j :| 0 <= j < |rs| && b == rs[j] && rs[j].pid in allowed;
        DeepestDepthBounds(ix, allowed, cs[j].pid, rank);
        assert rs[j].depth <= hs[j];
      }
    }
  }

  /** When every process of the subtree passes the filter, the reported depth
      is the height of the subtree and the result is a leaf at that depth. */
  lemma {:induction false} DeepestWhenAllAllowed(ix: Index, allowed: set<int>, pid: int, rank: map<int, nat>)
    requires ix.Valid() && RankedBy(ix, rank) && pid in rank
    requires SubtreeAllowed(ix, allowed, pid, rank)
    ensures var r := Deepest(ix, allowed, pid, rank);
      && r.depth == Height(ix, pid, rank)
      && |ix.Children(r.pid)| == 0
      && r.pid in rank
      && Reaches(ix, pid, r.pid, r.depth, rank)
    decreases rank[pid]
  {
    var cs := ix.Children(pid);
    if |cs| == 0 {
      assert Reaches(ix, pid, pid, 0, rank);
    } else {
      var rs := ChildResults(ix, allowed, pid, rank);
      var hs := ChildHeights(ix, pid, rank);
      forall k | 0 <= k < |cs|
        ensures rs[k].pid in allowed && rs[k].depth == hs[k]
        ensures |ix.Children(rs[k].pid)| == 0 && rs[k].pid in rank
        ensures Reaches(ix, cs[k].pid, rs[k].pid, rs[k].depth, rank)
      {
        DeepestWhenAllAllowed(ix, allowed, cs[k].pid, rank);
        AllowedInSubtree(ix, allowed, cs[k].pid, rs[k].pid, rs[k].depth, rank);
      }
      BestWhenAllAllowed(allowed, Found(pid, 0), rs, hs);
      var j :| 0 <= j < |rs| && Best(allowed, Found(pid, 0), rs) == rs[j] && rs[j].depth == Max(hs);
      assert Reaches(ix, pid, rs[j].pid, rs[j].depth + 1, rank);
    }
  }

  /** A process reached from an all-allowed subtree is allowed. */
  lemma {:induction false} AllowedInSubtree(ix: Index, allowed: set<int>, pid: int, q: int, d: nat, rank: map<int, nat>)
    requires RankedBy(ix, rank) && pid in rank
    requires SubtreeAllowed(ix, allowed, pid, rank) && Reaches(ix, pid, q, d, rank)
    ensures q in allowed
    decreases d
  {
    if d > 0 {
      var i :| 0 <= i < |ix.Children(pid)| && Reaches(ix, ix.Children(pid)[i].pid, q, d - 1, rank);
      AllowedInSubtree(ix, allowed, ix.Children(pid)[i].pid, q, d - 1, rank);
    }
  }

  /** `r` is what a node `pid` with child results `rs` answers: itself at
      depth 1 when no child result is allowed, otherwise the last of the
      deepest allowed child results, one level deeper. */
  predicate NodeAnswer(allowed: set<int>, pid: int, rs: seq<Found>, r: Found) {
    || (r == Found(pid, 1) && forall k :: 0 <= k < |rs| ==> rs[k].pid !in allowed)
    || exists j :: 0 <= j < |rs| && LastDeepest(allowed, rs, j) && r == Found(rs[j].pid, rs[j].depth + 1)
  }

  /** Folding from depth 0 and adding one level gives the node's answer. */
  lemma NodeChoice(allowed: set<int>, pid: int, rs: seq<Found>)
    ensures var b := Best(allowed, Found(pid, 0), rs); NodeAnswer(allowed, pid, rs, Found(b.pid, b.depth + 1))
  {
    BestFromDepthZero(allowed, Found(pid, 0), rs);
  }

  /** Ties: a node returns its last child whose result passes the filter and
      is as deep as any allowed child result, one level deeper; it returns
      itself at depth 1 only when no child result passes the filter. */
  lemma DeepestPicksLastDeepestAllowedChild(ix: Index, allowed: set<int>, pid: int, rank: map<int, nat>)
    requires RankedBy(ix, rank) && pid in rank
    requires |ix.Children(pid)| > 0
    ensures NodeAnswer(allowed, pid, ChildResults(ix, allowed, pid, rank), Deepest(ix, allowed, pid, rank))
  {
    NodeChoice(allowed, pid, ChildResults(ix, allowed, pid, rank));
  }

  /** The arguments of the trace at lines 66-72. They are evaluated even when
      tracing is off, so each `must` read has to succeed. */
  function TraceFields(p: Proc): (fields: (bool, string, seq<string>, string))
    requires Readable(p)
  {
    (IsProcAllowed(p), p.exe.value, p.cmdline.value, p.cwd.value)
  }

  /** `findDeepestChild` (lines 63-88). The lookup `procsByPID[pid][0]` fails for
      a PID that is not in the snapshot, before any child is looked at; for an
      indexed PID the reads of the trace arguments must succeed on every
      visited process and the parent links below `pid` are acyclic. */
  method FindDeepestChild(ix: Index, pid: int, ghost rank: map<int, nat>) returns (r: Result<Found>)
    requires ix.Valid()
    requires pid in ix.byPid ==> RankedBy(ix, rank) && pid in rank && SubtreeReadable(ix, pid, rank)
    ensures pid in ix.byPid ==> r == Ok(Deepest(ix, AllowedPids(ix), pid, rank))
    ensures pid !in ix.byPid ==> r == Err(ProcessNotFound(pid))
    decreases if pid in rank then rank[pid] else 0
  {
    if pid !in ix.byPid {
      return Err(ProcessNotFound(pid));
    }
    var p := ix.byPid[pid][0];
    var trace := TraceFields(p);
    var children := ix.Children(pid);
    if |children| == 0 {
      return Ok(Found(pid, 0));
    }
    var longestDescDepth: nat := 0;
    var longestDescPid := pid;
    ghost var rs := ChildResults(ix, AllowedPids(ix), pid, rank);
    for i := 0 to |children|
      invariant Found(longestDescPid, longestDescDepth) == Best(AllowedPids(ix), Found(pid, 0), rs[..i])
    {
      var child := children[i];
      var sub := FindDeepestChild(ix, child.pid, rank);
      var desc := sub.value;
      DeepestReadable(ix, AllowedPids(ix), child.pid, rank);
      var dp := ix.byPid[desc.pid][0];
      assert IsProcAllowed(dp) <==> desc.pid in AllowedPids(ix);
      if desc.depth >= longestDescDepth && IsProcAllowed(dp) {
        longestDescDepth := desc.depth;
        longestDescPid := desc.pid;
      }
      assert rs[..i + 1][..i] == rs[..i];
    }
    assert rs[..|children|] == rs;
    return Ok(Found(longestDescPid, longestDescDepth + 1));
  }
}
