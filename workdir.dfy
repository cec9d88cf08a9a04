/** `getCurrentWorkingDirectory` (lines 38-61): decode the focused window's
    PID, index the snapshot, search from that PID and read the answer's
    working directory. The X11 reply and the procfs snapshot are inputs. */
module WorkingDirectory {
  import opened Processes
  import opened ProcessIndex
  import opened DeepestChild
  import opened WindowPid

  /** What the search needs once the PID is decoded and the snapshot indexed:
      if the root has a record, acyclic parent links below it and readable
      visited processes. A root without a record needs nothing: the lookup at
      line 65 fails before any child is read. */
  ghost predicate SearchableFrom(reply: PropertyReply, s: Snapshot, rank: map<int, nat>) {
    PidFromReply(reply).Ok? && BuildIndex(s).Ok? ==>
      var ix := BuildIndex(s).value;
      var root := PidFromReply(reply).value as int;
      root in ix.byPid ==> RankedBy(ix, rank) && root in rank && SubtreeReadable(ix, root, rank)
  }

  method GetCurrentWorkingDirectory(reply: PropertyReply, s: Snapshot, ghost rank: map<int, nat>)
    returns (r: Result<string>)
    requires SearchableFrom(reply, s, rank)
    ensures PidFromReply(reply).Err? ==> r == Err(PidFromReply(reply).error)
    ensures PidFromReply(reply).Ok? && BuildIndex(s).Err? ==> r == Err(StatUnreadable)
    ensures PidFromReply(reply).Ok? && BuildIndex(s).Ok? ==>
      var ix := BuildIndex(s).value;
      var root := PidFromReply(reply).value as int;
      if root !in ix.byPid then r == Err(ProcessNotFound(root))
      else
        var d := Deepest(ix, AllowedPids(ix), root, rank);
        d.pid in ix.byPid && Readable(ix.byPid[d.pid][0]) && r == Ok(ix.byPid[d.pid][0].cwd.value)
  {
    var pid := PidFromReply(reply);
    if pid.Err? {
      return Err(pid.error);
    }
    var procs := BuildIndex(s);
    if procs.Err? {
      return Err(procs.error);
    }
    var ix := procs.value;
    var root := pid.value as int;
    var found := FindDeepestChild(ix, root, rank);
    if found.Err? {
      return Err(found.error);
    }
    DeepestReadable(ix, AllowedPids(ix), root, rank);
    return Ok(ix.byPid[found.value.pid][0].cwd.value);
  }
}
