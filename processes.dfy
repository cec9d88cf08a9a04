/** Process records as read from procfs, Go's `path.Base`, and the executable
    denylist that decides whether a process may be the answer of the search. */
module Processes {

  datatype Option<T> = None | Some(value: T)

  /** The ways the whole lookup can fail. */
  datatype Error =
    | PropertyNotSet            // the focused window's _NET_WM_PID property is empty
    | PropertyTooShort          // the property holds fewer than four bytes
    | StatUnreadable            // some process's stat file could not be read while indexing
    | ProcessNotFound(pid: int) // the search root is not in the snapshot

  datatype Result<T> = Ok(value: T) | Err(error: Error)

  /** One process of the snapshot. Each procfs read is independently fallible;
      a failed read is `None`. `ppid` is the parent PID from the stat file. */
  datatype Proc = Proc(
    pid: int,
    ppid: Option<int>,
    exe: Option<string>,
    cmdline: Option<seq<string>>,
    cwd: Option<string>)

  type Snapshot = seq<Proc>

  /** The reads the search performs on every process it visits succeed. */
  predicate Readable(p: Proc) {
    p.exe.Some? && p.cmdline.Some? && p.cwd.Some?
  }

  /** Basenames of executables that are never chosen as the deepest child. */
  const IgnoreExecutableList: seq<string> := ["gopls", "", "."]

  /** `path` with every trailing '/' removed. */
  function TrimTrailingSlashes(path: string): (trimmed: string) {
    if |path| > 0 && path[|path| - 1] == '/' then TrimTrailingSlashes(path[..|path| - 1]) else path
  }

  /** The part of `path` after its last '/', or all of it if it has none. */
  function AfterLastSlash(path: string): (tail: string) {
    if path == [] then []
    else if path[|path| - 1] == '/' then []
    else AfterLastSlash(path[..|path| - 1]) + [path[|path| - 1]]
  }

  /** Go's `path.Base`: the last element of a slash-separated path. The
      properties it is known by are the lemmas below. */
  function Base(path: string): (base: string) {
    if path == "" then "."
    else
      var b := AfterLastSlash(TrimTrailingSlashes(path));
      if b == "" then "/" else b
  }

  /** Trimming keeps a prefix, removes only slashes, and leaves no trailing slash. */
  lemma {:induction false} TrimTrailingSlashesShape(path: string)
    ensures var r := TrimTrailingSlashes(path);
      && r <= path
      && (r == [] || r[|r| - 1] != '/')
      && forall i :: |r| <= i < |path| ==> path[i] == '/'
    decreases |path|
  {
    if |path| > 0 && path[|path| - 1] == '/' {
      TrimTrailingSlashesShape(path[..|path| - 1]);
    }
  }

  /** The tail is a suffix that holds no slash and is preceded by one, unless
      it is all of `path`. */
  lemma {:induction false} AfterLastSlashShape(path: string)
    ensures var r := AfterLastSlash(path);
      && |r| <= |path| && r == path[|path| - |r|..]
      && '/' !in r
      && (|r| < |path| ==> path[|path| - |r| - 1] == '/')
    decreases |path|
  {
    if path != [] && path[|path| - 1] != '/' {
      var init := path[..|path| - 1];
      AfterLastSlashShape(init);
      var r' := AfterLastSlash(init);
      assert path[|path| - |r'| - 1..] == r' + [path[|path| - 1]];
    }
  }

  /** A basename is never empty, and it holds no slash unless it is "/". */
  lemma BaseShape(path: string)
    ensures Base(path) != ""
    ensures Base(path) == "/" || '/' !in Base(path)
  {
    if path != "" {
      AfterLastSlashShape(TrimTrailingSlashes(path));
    }
  }

  /** `isProcAllowed`: the process's executable basename is not denylisted.
      Reading the executable panics on failure, hence the precondition. */
  function IsProcAllowed(p: Proc): (allowed: bool)
    requires p.exe.Some?
  {
    Base(p.exe.value) !in IgnoreExecutableList
  }

  lemma {:induction false} AfterLastSlashOfJoin(dir: string, name: string)
    requires '/' !in name
    ensures AfterLastSlash(dir + "/" + name) == name
    decreases |name|
  {
    if name == [] {
      assert dir + "/" + name == dir + "/";
    } else {
      var init := name[..|name| - 1];
      assert dir + "/" + name == (dir + "/" + init) + [name[|name| - 1]];
      assert (dir + "/" + name)[..|dir + "/" + name| - 1] == dir + "/" + init;
      AfterLastSlashOfJoin(dir, init);
      assert init + [name[|name| - 1]] == name;
    }
  }

  /** The basename of `dir/name` is `name`, whatever the directory. */
  lemma BaseOfJoin(dir: string, name: string)
    requires name != "" && '/' !in name
    ensures Base(dir + "/" + name) == name
  {
    var path := dir + "/" + name;
    assert path[|path| - 1] == name[|name| - 1];
    assert name[|name| - 1] in name;
    AfterLastSlashOfJoin(dir, name);
  }

  /** A single trailing slash does not change the basename of a non-empty path. */
  lemma BaseIgnoresTrailingSlash(path: string)
    requires path != ""
    ensures Base(path + "/") == Base(path)
  {
    assert (path + "/")[..|path + "/"| - 1] == path;
  }

  lemma DenylistMembers(b: string)
    requires b != ""
    ensures b in IgnoreExecutableList <==> b == "gopls" || b == "."
  {
    assert IgnoreExecutableList == ["gopls", "", "."];
  }

  /** The filter rejects exactly the basenames "gopls" and "."; the "" entry of
      the denylist can never match, because a basename is never empty. */
  lemma AllowedExactly(p: Proc)
    requires p.exe.Some?
    ensures IsProcAllowed(p) <==> Base(p.exe.value) != "gopls" && Base(p.exe.value) != "."
  {
    BaseShape(p.exe.value);
    DenylistMembers(Base(p.exe.value));
  }

  /** The filter on three concrete executables: an empty path (basename ".")
      and gopls are rejected, bash is allowed. */
  lemma FilterExamples(p: Proc)
    requires p.exe.Some?
    ensures p.exe.value == "" ==> !IsProcAllowed(p)
    ensures p.exe.value == "/usr/bin/gopls" ==> !IsProcAllowed(p)
    ensures p.exe.value == "/bin/bash" ==> IsProcAllowed(p)
  {
    var e := p.exe.value;
    if e == "" {
      DenylistMembers(".");
    } else if e == "/usr/bin/gopls" {
      assert e == "/usr/bin" + "/" + "gopls";
      BaseOfJoin("/usr/bin", "gopls");
      DenylistMembers("gopls");
    } else if e == "/bin/bash" {
      assert e == "/bin" + "/" + "bash";
      BaseOfJoin("/bin", "bash");
      DenylistMembers("bash");
    }
  }
}
