/**
 * The assembly resolver: a name-keyed cache of loaded modules where the first module loaded
 * under a name stays, and the list of directories to probe for references that are not cached.
 * The file system is a parameter: a path that is not a key does not exist, and a path that
 * maps to None exists but does not parse as a PE file.
 */
module Resolver {
  import opened Wrappers
  import opened Strings
  import opened TypeSystem

  type FileSystem = map<string, Option<PEFile>>

  /** The probe extensions, in the order `Resolve` would try them. */
  const Extensions: seq<string> := [".dll", ".exe"]

  /** `Path.GetDirectoryName` for '/'-separated paths: None for the root, "" for a bare file name. */
  function DirectoryName(path: string): Option<string>
  {
    var i := LastIndexOfChar(path, '/');
    if i < 0 then Some("")
    else if i == 0 then (if |path| == 1 then None else Some("/"))
    else Some(path[..i])
  }

  /** `Path.Combine (dir, file)` for '/'-separated paths. */
  function Combine(dir: string, file: string): string
  {
    if |file| > 0 && file[0] == '/' then file
    else if |dir| == 0 then file
    else if dir[|dir| - 1] == '/' then dir + file
    else dir + "/" + file
  }

  predicate Distinct(s: seq<string>)
  {
    forall i, j :: 0 <= i < j < |s| ==> s[i] != s[j]
  }

  /** The resolver's state as a value: the module cache and the search directories. */
  datatype State = State(assemblies: map<string, PEFile>, directories: seq<string>)

  ghost predicate ValidState(st: State)
  {
    Distinct(st.directories)
  }

  /** What `AddSearchDirectory` does to the directory list. */
  function AddDirectory(dirs: seq<string>, directory: Option<string>): seq<string>
  {
    if directory.Some? && directory.value !in dirs then dirs + [directory.value] else dirs
  }

  /** What `Load (file)` returns, and the state it leaves. */
  function LoadStep(st: State, fs: FileSystem, file: string): (State, Option<PEFile>)
  {
    if file !in fs || fs[file].None? then (st, None)
    else
      var pe := fs[file].value;
      if pe.name in st.assemblies then (st, Some(pe))
      else (State(st.assemblies[pe.name := pe], AddDirectory(st.directories, DirectoryName(file))), Some(pe))
  }

  /** What `Resolve (name)` returns, and the state it leaves. */
  function ResolveStep(st: State, fs: FileSystem, name: string): (State, Option<PEFile>)
  {
    if name in st.assemblies then (st, Some(st.assemblies[name]))
    else if |st.directories| == 0 then (st, None)
    else LoadStep(st, fs, Combine(st.directories[0], name + Extensions[0]))
  }

  /** The state after `st` only grew: every cached entry kept, the directory list extended. */
  ghost predicate Grows(st: State, st': State)
  {
    && (forall n :: n in st.assemblies ==> n in st'.assemblies && st'.assemblies[n] == st.assemblies[n])
    && |st.directories| <= |st'.directories|
    && st'.directories[..|st.directories|] == st.directories
  }

  class AssemblyResolver {
    var assemblies: map<string, PEFile>   // a static dictionary in the source, shared by all instances
    var directories: seq<string>

    ghost predicate Valid()
      reads this
    {
      Distinct(directories)
    }

    function Model(): State
      reads this
    {
      State(assemblies, directories)
    }

    constructor ()
      ensures Valid() && assemblies == map[] && directories == []
    {
      assemblies := map[];
      directories := [];
    }

    /** Appends a directory unless it is null or already listed. */
    method AddSearchDirectory(directory: Option<string>)
      requires Valid()
      modifies this`directories
      ensures Valid()
      ensures directories == AddDirectory(old(directories), directory)
    {
      if directory.Some? && directory.value !in directories {
        directories := directories + [directory.value];
      }
    }

    /**
     * Loads a file. A missing or unparsable file gives None and changes nothing; a parsed
     * module is returned even when an earlier module already holds its name in the cache.
     */
    method Load(fs: FileSystem, file: string) returns (r: Option<PEFile>)
      requires Valid()
      modifies this
      ensures Valid()
      ensures (Model(), r) == LoadStep(old(Model()), fs, file)
    {
      if file !in fs {
        return None;
      }
      var parsed := fs[file];
      if parsed.None? {
        return None;  // the PEFile constructor throws; the exception is swallowed
      }
      var pe := parsed.value;
      if pe.name !in assemblies {  // Dictionary.TryAdd
        assemblies := assemblies[pe.name := pe];
        AddSearchDirectory(DirectoryName(file));
      }
      return Some(pe);
    }

    /**
     * Resolves a reference by name: the cached module, or else the load of the first
     * candidate path; the nested loops return on their very first probe.
     */
    method Resolve(fs: FileSystem, name: string) returns (r: Option<PEFile>)
      requires Valid()
      modifies this
      ensures Valid()
      ensures (Model(), r) == ResolveStep(old(Model()), fs, name)
    {
      if name in assemblies {
        return Some(assemblies[name]);
      }
      for i := 0 to |directories|
        invariant i == 0
        invariant Model() == old(Model())
      {
        for j := 0 to |Extensions|
          invariant j == 0
          invariant Model() == old(Model())
        {
          var file := Combine(directories[i], name + Extensions[j]);
          r := Load(fs, file);
          return;
        }
        assert false;
      }
      return None;
    }

    /** The asynchronous wrapper completes with exactly what `Resolve` returns. */
    method ResolveAsync(fs: FileSystem, name: string) returns (r: Option<PEFile>)
      requires Valid()
      modifies this
      ensures Valid()
      ensures (Model(), r) == ResolveStep(old(Model()), fs, name)
    {
      r := Resolve(fs, name);
    }
  }

  /** An operation a session performs on the resolver. */
  datatype Op = LoadOp(file: string) | ResolveOp(name: string) | AddDirectoryOp(directory: Option<string>)

  function Apply(st: State, fs: FileSystem, op: Op): State
  {
    match op
    case LoadOp(file) => LoadStep(st, fs, file).0
    case ResolveOp(name) => ResolveStep(st, fs, name).0
    case AddDirectoryOp(d) => State(st.assemblies, AddDirectory(st.directories, d))
  }

  function Run(st: State, fs: FileSystem, ops: seq<Op>): State
    decreases |ops|
  {
    if |ops| == 0 then st else Run(Apply(st, fs, ops[0]), fs, ops[1..])
  }

  /** Loading a missing or unparsable path returns None and leaves cache and directories as they were. */
  lemma LoadFailureChangesNothing(st: State, fs: FileSystem, file: string)
    requires file !in fs || fs[file].None?
    ensures LoadStep(st, fs, file) == (st, None)
  {
  }

  /**
   * First writer wins: a module whose name is cached is returned but not cached, and no
   * directory is added; a new name is cached and only then its directory added.
   */
  lemma LoadFirstWriterWins(st: State, fs: FileSystem, file: string)
    requires file in fs && fs[file].Some?
    ensures LoadStep(st, fs, file).1 == fs[file]
    ensures fs[file].value.name in st.assemblies ==> LoadStep(st, fs, file).0 == st
    ensures fs[file].value.name !in st.assemblies ==>
      LoadStep(st, fs, file).0.assemblies == st.assemblies[fs[file].value.name := fs[file].value]
    ensures LoadStep(st, fs, file).0.directories != st.directories ==> fs[file].value.name !in st.assemblies
  {
  }

  /** A cached name resolves to the cached module with no load and no change of state. */
  lemma ResolveCached(st: State, fs: FileSystem, name: string)
    requires name in st.assemblies
    ensures ResolveStep(st, fs, name) == (st, Some(st.assemblies[name]))
  {
  }

  /** On a miss, only the first directory combined with ".dll" is ever probed. */
  lemma ResolveProbesOneCandidate(st: State, fs: FileSystem, name: string)
    requires name !in st.assemblies
    ensures |st.directories| == 0 ==> ResolveStep(st, fs, name) == (st, None)
    ensures |st.directories| > 0 ==>
      ResolveStep(st, fs, name) == LoadStep(st, fs, Combine(st.directories[0], name + ".dll"))
  {
  }

  /** Loading a file whose module name is new, then resolving that name, gives the same module without a second load. */
  lemma LoadThenResolve(st: State, fs: FileSystem, file: string, other: FileSystem)
    requires file in fs && fs[file].Some? && fs[file].value.name !in st.assemblies
    ensures var (st1, pe) := LoadStep(st, fs, file);
      ResolveStep(st1, other, fs[file].value.name) == (st1, pe)
  {
  }

  lemma {:induction false} GrowsTransitive(a: State, b: State, c: State)
    requires Grows(a, b) && Grows(b, c)
    ensures Grows(a, c)
  {
    assert c.directories[..|b.directories|][..|a.directories|] == c.directories[..|a.directories|];
  }

  lemma {:induction false} ApplyGrows(st: State, fs: FileSystem, op: Op)
    requires ValidState(st)
    ensures ValidState(Apply(st, fs, op)) && Grows(st, Apply(st, fs, op))
  {
    var st' := Apply(st, fs, op);
    assert st'.directories == st.directories || (|st'.directories| == |st.directories| + 1 &&
      st'.directories[..|st.directories|] == st.directories &&
      st'.directories[|st.directories|] !in st.directories) by {
      match op
      case LoadOp(file) =>
      case ResolveOp(name) =>
      case AddDirectoryOp(d) =>
    }
  }

  /**
   * Over any session, the directory list stays free of duplicates and keeps its order, and
   * neither the cache nor the directory list ever loses or replaces an entry.
   */
  lemma {:induction false} RunGrows(st: State, fs: FileSystem, ops: seq<Op>)
    requires ValidState(st)
    ensures ValidState(Run(st, fs, ops)) && Grows(st, Run(st, fs, ops))
    decreases |ops|
  {
    if |ops| > 0 {
      var st1 := Apply(st, fs, ops[0]);
      ApplyGrows(st, fs, ops[0]);
      RunGrows(st1, fs, ops[1..]);
      GrowsTransitive(st, st1, Run(st1, fs, ops[1..]));
    }
  }

  // ---------------------------------------------------------------------------------------
  // Probing every candidate, as the nested loops evidently intend

  /** A path that exists and parses. */
  predicate Loads(fs: FileSystem, path: string)
  {
    path in fs && fs[path].Some?
  }

  /** Every directory combined with the name and each extension: directory by directory, ".dll" before ".exe". */
  function Candidates(dirs: seq<string>, name: string): (c: seq<string>)
    ensures |c| == 2 * |dirs|
  {
    if |dirs| == 0 then []
    else [Combine(dirs[0], name + Extensions[0]), Combine(dirs[0], name + Extensions[1])] + Candidates(dirs[1..], name)
  }

  /** Candidates `2i` and `2i + 1` are directory `i` with ".dll" and with ".exe". */
  lemma {:induction false} CandidatesAt(dirs: seq<string>, name: string, i: nat)
    requires i < |dirs|
    ensures Candidates(dirs, name)[2 * i] == Combine(dirs[i], name + Extensions[0])
    ensures Candidates(dirs, name)[2 * i + 1] == Combine(dirs[i], name + Extensions[1])
  {
    if i > 0 {
      CandidatesAt(dirs[1..], name, i - 1);
      assert dirs[1..][i - 1] == dirs[i];
    }
  }

  /** Loads the candidates in turn and stops at the first that loads. */
  function ProbeAll(st: State, fs: FileSystem, paths: seq<string>): (State, Option<PEFile>)
  {
    if |paths| == 0 then (st, None)
    else if Loads(fs, paths[0]) then LoadStep(st, fs, paths[0])
    else ProbeAll(st, fs, paths[1..])
  }

  /** `Resolve` with the loops probing every candidate: the cached module, or the first candidate that loads. */
  function ResolveIntended(st: State, fs: FileSystem, name: string): (State, Option<PEFile>)
  {
    if name in st.assemblies then (st, Some(st.assemblies[name]))
    else ProbeAll(st, fs, Candidates(st.directories, name))
  }

  /**
   * The probe finds a module exactly when some candidate loads, and then it is the load of the
   * first such candidate; when none loads, nothing changes.
   */
  lemma {:induction false} ProbeAllSpec(st: State, fs: FileSystem, paths: seq<string>)
    ensures ProbeAll(st, fs, paths).1.Some? <==> exists i :: 0 <= i < |paths| && Loads(fs, paths[i])
    ensures ProbeAll(st, fs, paths).1.None? ==> ProbeAll(st, fs, paths).0 == st
    ensures ProbeAll(st, fs, paths).1.Some? ==>
      exists i :: 0 <= i < |paths| && Loads(fs, paths[i]) && (forall j :: 0 <= j < i ==> !Loads(fs, paths[j])) &&
        ProbeAll(st, fs, paths) == LoadStep(st, fs, paths[i])
    decreases |paths|
  {
    if |paths| > 0 && !Loads(fs, paths[0]) {
      var rest := paths[1..];
      ProbeAllSpec(st, fs, rest);
      if exists i :: 0 <= i < |paths| && Loads(fs, paths[i]) {
        var i :| 0 <= i < |paths| && Loads(fs, paths[i]);
        assert rest[i - 1] == paths[i];
      }
      if ProbeAll(st, fs, paths).1.Some? {
        var i :| 0 <= i < |rest| && Loads(fs, rest[i]) && (forall j :: 0 <= j < i ==> !Loads(fs, rest[j])) &&
          ProbeAll(st, fs, rest) == LoadStep(st, fs, rest[i]);
        assert paths[i + 1] == rest[i];
        forall j | 0 <= j < i + 1 ensures !Loads(fs, paths[j]) {
          if j > 0 {
            assert paths[j] == rest[j - 1];
          }
        }
      }
    }
  }

  /**
   * Resolving as intended: a cached name gives its module; otherwise a module is found exactly
   * when some directory holds the name with some extension, and it agrees with the code as
   * written whenever the first candidate loads.
   */
  lemma ResolveIntendedSpec(st: State, fs: FileSystem, name: string)
    requires name !in st.assemblies
    ensures ResolveIntended(st, fs, name).1.Some? <==> InSomeDirectory(fs, st.directories, name)
    ensures ResolveIntended(st, fs, name).1.None? ==> ResolveIntended(st, fs, name).0 == st
    ensures |st.directories| > 0 && Loads(fs, Combine(st.directories[0], name + Extensions[0])) ==>
      ResolveIntended(st, fs, name) == ResolveStep(st, fs, name)
  {
    var c := Candidates(st.directories, name);
    ProbeAllSpec(st, fs, c);
    CandidatesLoad(fs, st.directories, name);
    if |st.directories| > 0 {
      CandidatesAt(st.directories, name, 0);
    }
  }

  /** Some directory holds the name with one of the extensions. */
  predicate InSomeDirectory(fs: FileSystem, dirs: seq<string>, name: string)
  {
    exists i, e :: 0 <= i < |dirs| && 0 <= e < |Extensions| && Loads(fs, Combine(dirs[i], name + Extensions[e]))
  }

  lemma CandidatesLoad(fs: FileSystem, dirs: seq<string>, name: string)
    ensures (exists k :: 0 <= k < |Candidates(dirs, name)| && Loads(fs, Candidates(dirs, name)[k])) <==> InSomeDirectory(fs, dirs, name)
  {
    var c := Candidates(dirs, name);
    if exists k :: 0 <= k < |c| && Loads(fs, c[k]) {
      var k :| 0 <= k < |c| && Loads(fs, c[k]);
      CandidateLoads(fs, dirs, name, k);
    }
    if InSomeDirectory(fs, dirs, name) {
      var i, e :| 0 <= i < |dirs| && 0 <= e < |Extensions| && Loads(fs, Combine(dirs[i], name + Extensions[e]));
      DirectoryCandidate(fs, dirs, name, i, e);
      assert 0 <= 2 * i + e < |c| && Loads(fs, c[2 * i + e]);
    }
  }

  lemma DirectoryCandidate(fs: FileSystem, dirs: seq<string>, name: string, i: nat, e: nat)
    requires i < |dirs| && e < |Extensions| && Loads(fs, Combine(dirs[i], name + Extensions[e]))
    ensures 2 * i + e < |Candidates(dirs, name)| && Loads(fs, Candidates(dirs, name)[2 * i + e])
  {
    CandidatesAt(dirs, name, i);
    if e == 0 {
      assert Candidates(dirs, name)[2 * i + e] == Combine(dirs[i], name + Extensions[0]);
    } else {
      assert Candidates(dirs, name)[2 * i + e] == Combine(dirs[i], name + Extensions[1]);
    }
  }

  lemma CandidateLoads(fs: FileSystem, dirs: seq<string>, name: string, k: nat)
    requires k < |Candidates(dirs, name)| && Loads(fs, Candidates(dirs, name)[k])
    ensures InSomeDirectory(fs, dirs, name)
  {
    var i := k / 2;
    CandidatesAt(dirs, name, i);
    if k % 2 == 0 {
      assert k == 2 * i;
      assert Loads(fs, Combine(dirs[i], name + Extensions[0]));
    } else {
      assert k == 2 * i + 1;
      assert Loads(fs, Combine(dirs[i], name + Extensions[1]));
    }
  }

  /**
   * As written, a module in the second search directory is never found: the loops return the
   * load of the first candidate, which is missing here, while the intended probe finds it.
   */
  lemma ResolveMissesSecondDirectory(pe: PEFile)
    requires pe.name == "Lib"
    ensures var st := State(map[], ["a", "b"]);
      var fs: FileSystem := map["b/Lib.dll" := Some(pe)];
      ResolveStep(st, fs, "Lib") == (st, None) &&
      ResolveIntended(st, fs, "Lib") == (State(map["Lib" := pe], ["a", "b"]), Some(pe))
  {
    var st := State(map[], ["a", "b"]);
    var fs: FileSystem := map["b/Lib.dll" := Some(pe)];
    LibPaths();
    assert "a/Lib.dll" !in fs && "a/Lib.exe" !in fs by {
      assert "a/Lib.dll"[0] != "b/Lib.dll"[0] && "a/Lib.exe"[0] != "b/Lib.dll"[0];
    }
    assert ResolveStep(st, fs, "Lib") == LoadStep(st, fs, "a/Lib.dll");
    LibIntended(st, fs, pe);
  }

  lemma LibPaths()
    ensures Combine("a", "Lib" + Extensions[0]) == "a/Lib.dll"
    ensures Combine("a", "Lib" + Extensions[1]) == "a/Lib.exe"
    ensures Combine("b", "Lib" + Extensions[0]) == "b/Lib.dll"
  {
    assert "Lib" + Extensions[0] == "Lib.dll" && "Lib" + Extensions[1] == "Lib.exe";
  }

  lemma LibIntended(st: State, fs: FileSystem, pe: PEFile)
    requires pe.name == "Lib" && st == State(map[], ["a", "b"]) && fs == map["b/Lib.dll" := Some(pe)]
    requires "a/Lib.dll" !in fs && "a/Lib.exe" !in fs
    ensures ResolveIntended(st, fs, "Lib") == (State(map["Lib" := pe], ["a", "b"]), Some(pe))
  {
    LibPaths();
    var c := Candidates(st.directories, "Lib");
    CandidatesAt(st.directories, "Lib", 0);
    CandidatesAt(st.directories, "Lib", 1);
    assert !Loads(fs, c[0]) && !Loads(fs, c[1]) && Loads(fs, c[2]);
    assert ProbeAll(st, fs, c) == ProbeAll(st, fs, c[1..]);
    assert c[1..][1..] == c[2..] && c[1..][0] == c[1] && c[2..][0] == c[2];
    assert ProbeAll(st, fs, c[1..]) == ProbeAll(st, fs, c[2..]);
    assert ProbeAll(st, fs, c[2..]) == LoadStep(st, fs, "b/Lib.dll");
    assert DirectoryName("b/Lib.dll") == Some("b") by {
      LastSlash();
      assert "b/Lib.dll"[..1] == "b";
    }
    assert AddDirectory(["a", "b"], Some("b")) == ["a", "b"];
  }

  lemma LastSlash()
    ensures LastIndexOfChar("b/Lib.dll", '/') == 1
  {
    var s := "b/Lib.dll";
    assert s[1] == '/';
    assert forall k :: 1 < k < |s| ==> s[k] != '/';
    assert s[0] != '/';
  }
}
