/** The two lookups built from one snapshot: processes grouped by PID and by
    parent PID, each group in snapshot order (`lo.GroupBy`). */
module ProcessIndex {
  import opened Processes

  /** `lo.GroupBy`: every key that occurs maps to the elements with that key,
      appended in the order they occur. */
  function GroupBy<T>(s: seq<T>, key: T --> int): (m: map<int, seq<T>>)
    requires forall x <- s :: key.requires(x)
    decreases |s|
  {
    if s == [] then map[]
    else
      var m := GroupBy(s[..|s| - 1], key);
      var x := s[|s| - 1];
      m[key(x) := (if key(x) in m then m[key(x)] else []) + [x]]
  }

  /** The elements of `s` whose key is `k`, in order (the reference filter). */
  function Select<T>(s: seq<T>, key: T --> int, k: int): (r: seq<T>)
    requires forall x <- s :: key.requires(x)
    ensures forall i :: 0 <= i < |r| ==> r[i] in s && key(r[i]) == k
    ensures forall i :: 0 <= i < |s| && key(s[i]) == k ==> s[i] in r
    decreases |s|
  {
    if s == [] then []
    else
      var x := s[|s| - 1];
      Select(s[..|s| - 1], key, k) + (if key(x) == k then [x] else [])
  }

  /** The first element of a selection is the first element of `s` with that key. */
  lemma {:induction false} SelectFirst<T>(s: seq<T>, key: T --> int, k: int)
    requires forall x <- s :: key.requires(x)
    requires Select(s, key, k) != []
    ensures exists i :: 0 <= i < |s| && Select(s, key, k)[0] == s[i] && key(s[i]) == k
                        && forall j :: 0 <= j < i ==> key(s[j]) != k
    decreases |s|
  {
    var init := s[..|s| - 1];
    var x := s[|s| - 1];
    if Select(init, key, k) != [] {
      SelectFirst(init, key, k);
      var i :| 0 <= i < |init| && Select(init, key, k)[0] == init[i] && key(init[i]) == k
               && forall j :: 0 <= j < i ==> key(init[j]) != k;
      assert s[i] == init[i];
      assert forall j :: 0 <= j < i ==> s[j] == init[j];
    } else {
      assert key(x) == k;
      forall j | 0 <= j < |s| - 1 ensures key(s[j]) != k {
        assert s[j] == init[j] && init[j] in init;
      }
    }
  }

  /** Grouping is filtering: a key is present exactly when some element has
      it, and its group is the in-order selection of those elements. */
  lemma {:induction false} GroupByIsSelect<T>(s: seq<T>, key: T --> int, k: int)
    requires forall x <- s :: key.requires(x)
    ensures k in GroupBy(s, key) <==> Select(s, key, k) != []
    ensures k in GroupBy(s, key) ==> GroupBy(s, key)[k] == Select(s, key, k)
    decreases |s|
  {
    if s != [] {
      GroupByIsSelect(s[..|s| - 1], key, k);
    }
  }

  function PidOf(p: Proc): (k: int) { p.pid }

  function PpidOf(p: Proc): (k: int)
    requires p.ppid.Some?
  {
    p.ppid.value
  }

  /** `procsByPPID` and `procsByPID`. */
  datatype Index = Index(byPpid: map<int, seq<Proc>>, byPid: map<int, seq<Proc>>) {

    /** `procsByPPID[pid]`; a missing key yields the empty (nil) group. */
    function Children(pid: int): (cs: seq<Proc>) {
      if pid in byPpid then byPpid[pid] else []
    }

    /** What grouping a snapshot guarantees: PID groups are non-empty and hold
        that PID; every child has the parent it is filed under and can itself
        be looked up by PID. */
    ghost predicate Valid() {
      && (forall k :: k in byPid ==> byPid[k] != [])
      && (forall k, i :: k in byPid && 0 <= i < |byPid[k]| ==> byPid[k][i].pid == k)
      && (forall q, i :: 0 <= i < |Children(q)| ==> Children(q)[i].ppid == Some(q))
      && (forall q, i :: 0 <= i < |Children(q)| ==> Children(q)[i].pid in byPid)
    }
  }

  /** Lines 51-52: group the snapshot by parent PID and by PID. Reading a
      process's stat panics on failure, which fails the whole index. */
  function BuildIndex(s: Snapshot): (r: Result<Index>)
    ensures r.Ok? <==> forall i :: 0 <= i < |s| ==> s[i].ppid.Some?
    ensures r.Err? ==> r.error == StatUnreadable
    ensures r.Ok? ==> r.value.Valid()
  {
    if exists i :: 0 <= i < |s| && s[i].ppid.None? then Err(StatUnreadable)
    else
      var ix := Index(GroupBy(s, PpidOf), GroupBy(s, PidOf));
      IndexValid(s, ix);
      Ok(ix)
  }

  lemma IndexValid(s: Snapshot, ix: Index)
    requires forall i :: 0 <= i < |s| ==> s[i].ppid.Some?
    requires ix == Index(GroupBy(s, PpidOf), GroupBy(s, PidOf))
    ensures ix.Valid()
  {
    forall k | k in ix.byPid
      ensures ix.byPid[k] != []
      ensures forall i :: 0 <= i < |ix.byPid[k]| ==> ix.byPid[k][i].pid == k
    {
      GroupByIsSelect(s, PidOf, k);
      forall i | 0 <= i < |ix.byPid[k]| ensures ix.byPid[k][i].pid == k {
        assert ix.byPid[k][i] in Select(s, PidOf, k);
      }
    }
    forall q, i | 0 <= i < |ix.Children(q)|
      ensures ix.Children(q)[i].ppid == Some(q)
      ensures ix.Children(q)[i].pid in ix.byPid
    {
      GroupByIsSelect(s, PpidOf, q);
      var c := ix.Children(q)[i];
      assert c in Select(s, PpidOf, q);
      GroupByIsSelect(s, PidOf, c.pid);
      assert c in Select(s, PidOf, c.pid);
    }
  }

  /** The children of `pid` are exactly the records whose parent is `pid`,
      in snapshot order. */
  lemma ChildrenInSnapshotOrder(s: Snapshot, pid: int)
    requires BuildIndex(s).Ok?
    ensures BuildIndex(s).value.Children(pid) == Select(s, PpidOf, pid)
    ensures forall c :: c in BuildIndex(s).value.Children(pid) <==> c in s && c.ppid == Some(pid)
  {
    GroupByIsSelect(s, PpidOf, pid);
  }

  /** A PID is indexed exactly when some record has it, and looking it up
      (`procsByPID[pid][0]`) yields the FIRST record with that PID. */
  lemma LookupTakesFirst(s: Snapshot, pid: int)
    requires BuildIndex(s).Ok?
    ensures pid in BuildIndex(s).value.byPid <==> exists i :: 0 <= i < |s| && s[i].pid == pid
    ensures pid in BuildIndex(s).value.byPid ==>
              exists i :: 0 <= i < |s| && BuildIndex(s).value.byPid[pid][0] == s[i] && s[i].pid == pid
                          && forall j :: 0 <= j < i ==> s[j].pid != pid
  {
    var ix := BuildIndex(s).value;
    GroupByIsSelect(s, PidOf, pid);
    if pid in ix.byPid {
      SelectFirst(s, PidOf, pid);
    } else {
      forall i | 0 <= i < |s| ensures s[i].pid != pid {
        assert s[i] in s;
      }
    }
    if exists i :: 0 <= i < |s| && s[i].pid == pid {
      var i :| 0 <= i < |s| && s[i].pid == pid;
      assert s[i] in Select(s, PidOf, pid);
    }
  }
}
