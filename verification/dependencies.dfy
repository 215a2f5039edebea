/**
 * The dependency resolver's operations as the script runs them: the recursive `visit`
 * closure that mutates a shared `visited` set and `result` list, the scan that collects
 * direct dependents, and the directory probe of `is_built`. Each operation is proved
 * against the pure definitions of `DependencyGraph`, and through them inherits the
 * order and closure theorems proved there.
 */
module Dependencies {
  import opened Strings
  import G = DependencyGraph

  /** `get_dependencies(c)`: the direct dependencies of `c`, none for an unknown name. */
  function GetDependencies(component: string): (deps: seq<string>)
    ensures component !in G.KeySet(G.Registry) ==> deps == []
    ensures forall i | 0 <= i < |G.Registry| && G.Registry[i].0 == component :: deps == G.Registry[i].1
  {
    G.RegistryWellFormed();
    G.DirectDependenciesOfKey(G.Registry, component);
    G.DirectDependencies(G.Registry, component)
  }

  /**
   * `get_dependents(c)`: scan the rows in declaration order and collect each key whose
   * list contains `c`.
   */
  method GetDependents(table: G.Table, component: string) returns (dependents: seq<string>)
    ensures dependents == G.DirectDependents(table, component)
    ensures forall x :: x in dependents <==>
      exists i | 0 <= i < |table| :: table[i].0 == x && component in table[i].1
  {
    dependents := [];
    var i := 0;
    while i < |table|
      invariant 0 <= i <= |table|
      invariant dependents == G.DirectDependents(table[..i], component)
    {
      assert table[..i + 1][..i] == table[..i];
      if component in table[i].1 {
        dependents := dependents + [table[i].0];
      }
      i := i + 1;
    }
    assert table[..|table|] == table;
    forall x ensures x in dependents <==> exists i | 0 <= i < |table| :: table[i].0 == x && component in table[i].1 {
      G.DirectDependentsMembership(table, component, x);
    }
  }

  /** The state one `get_all_dependencies` or `get_all_dependents` call shares with its `visit` closure. */
  class DepthFirstWalk {
    const table: G.Table
    const dir: G.Direction
    /** The component the query was asked about. */
    const start: string
    var visited: set<string>
    var result: seq<string>

    constructor(table: G.Table, dir: G.Direction, start: string)
      ensures this.table == table && this.dir == dir && this.start == start
      ensures visited == {} && result == []
    {
      this.table := table;
      this.dir := dir;
      this.start := start;
      visited := {};
      result := [];
    }

    /** The walk state as a value. */
    function State(): G.Walk
      reads this
    {
      G.Walk(visited, result)
    }

    /** The edges `visit` follows: `get_dependencies` forward, `get_dependents` in reverse. */
    method Neighbours(comp: string) returns (next: seq<string>)
      ensures next == G.Next(table, dir, comp)
    {
      if dir == G.Forward {
        next := G.DirectDependencies(table, comp);
      } else {
        next := GetDependents(table, comp);
      }
    }

    /**
     * `visit(comp)`: return at once for a visited name; otherwise mark it, visit its
     * neighbours in order, then append it (in reverse, only when it is not the start).
     */
    method Visit(comp: string)
      requires visited <= G.Universe(table, start) && comp in G.Universe(table, start)
      modifies this
      ensures State() == G.Visit(table, dir, start, old(State()), comp)
      decreases G.Universe(table, start) - visited
    {
      if comp in visited {
        return;
      }
      ghost var entered := G.Walk(visited + {comp}, result);
      visited := visited + {comp};
      var next := Neighbours(comp);
      G.NextInNodes(table, dir, comp);
      var i := 0;
      while i < |next|
        invariant 0 <= i <= |next|
        invariant entered.visited <= visited <= G.Universe(table, start)
        invariant G.VisitEach(table, dir, start, State(), next[i..]) == G.VisitEach(table, dir, start, entered, next)
      {
        assert next[i..] == [next[i]] + next[i + 1..];
        Visit(next[i]);
        i := i + 1;
      }
      if G.Emits(dir, start, comp) {
        result := result + [comp];
      }
    }
  }

  /**
   * `get_all_dependencies(c)`: every component `c` transitively depends on, each once and
   * in build order (a component after all its dependencies), with `c` last.
   */
  method GetAllDependencies(component: string) returns (result: seq<string>)
    ensures result == G.AllDependencies(G.Registry, component)
    ensures |result| > 0 && result[|result| - 1] == component && G.NoDup(result)
    ensures forall x :: x in result <==> G.Reaches(G.Registry, G.Forward, component, x)
    ensures forall i, j | 0 <= i < |result| && 0 <= j < |result| && result[j] in GetDependencies(result[i]) :: j < i
  {
    var walk := new DepthFirstWalk(G.Registry, G.Forward, component);
    walk.Visit(component);
    result := walk.result;
    G.RegistryWellFormed();
    G.AllDependenciesMembers(G.Registry, component);
    G.AllDependenciesBuildOrder(G.Registry, component);
  }

  /**
   * `get_all_dependents(c)`: every other component that transitively depends on `c`,
   * each once, a component before everything it depends on.
   */
  method GetAllDependents(component: string) returns (result: seq<string>)
    ensures result == G.AllDependents(G.Registry, component)
    ensures component !in result && G.NoDup(result)
    ensures forall x :: x in result <==> x != component && G.Reaches(G.Registry, G.Forward, x, component)
    ensures forall i, j | 0 <= i < |result| && 0 <= j < |result| && result[j] in GetDependencies(result[i]) :: i < j
  {
    var walk := new DepthFirstWalk(G.Registry, G.Reverse, component);
    walk.Visit(component);
    result := walk.result;
    G.RegistryWellFormed();
    G.AllDependentsMembers(G.Registry, component);
    G.AllDependentsOrder(G.Registry, component);
  }

  // ---------------------------------------------------------------------------
  // is_built

  /**
   * POSIX `os.path.join(a, b)`: an absolute `b` replaces the path; otherwise one `/`
   * separates them unless `a` is empty or already ends in `/`. Joining more parts is a
   * left fold of this.
   */
  function JoinPath(a: string, b: string): (r: string)
    ensures EndsWith(r, b)
    ensures !StartsWith(b, "/") ==> StartsWith(r, a)
  {
    if StartsWith(b, "/") then b
    else if a == "" || EndsWith(a, "/") then a + b
    else a + "/" + b
  }

  /** A part that `os.path.join` simply appends after one `/`. */
  predicate PlainPart(p: string) {
    p != "" && p[0] != '/' && p[|p| - 1] != '/'
  }

  /** Joining a plain part onto a path that does not end in `/` inserts exactly one `/`. */
  lemma JoinPlain(a: string, b: string)
    requires a != "" && a[|a| - 1] != '/' && PlainPart(b)
    ensures JoinPath(a, b) == a + "/" + b
    ensures JoinPath(a, b) != "" && JoinPath(a, b)[|JoinPath(a, b)| - 1] != '/'
  {
    assert !StartsWith(b, "/") by {
      assert b[..1][0] == b[0];
    }
    assert !EndsWith(a, "/") by {
      assert a[|a| - 1..][0] == a[|a| - 1];
    }
    var j := a + "/" + b;
    assert j[|j| - 1] == b[|b| - 1];
  }

  /** The one directory `is_built` checks for a component. */
  function ProbePath(component: string, installDir: string, repoRoot: string): (p: string)
    ensures StartsWith(component, "runner-") ==> EndsWith(p, "runner-s3-" + ReplaceAll(component, "runner-", ""))
    ensures component == "aws-s3-transfer-manager-rs" ==> EndsWith(p, "release")
    ensures !StartsWith(component, "runner-") && component != "aws-s3-transfer-manager-rs" ==> EndsWith(p, component)
  {
    assert StartsWith(component, "runner-") ==> component != "aws-s3-transfer-manager-rs" by {
      if StartsWith(component, "runner-") {
        assert component[0] == 'r';
      }
    }
    if StartsWith(component, "runner-") then
      JoinPath(JoinPath(JoinPath(installDir, "lib"), "cmake"), "runner-s3-" + ReplaceAll(component, "runner-", ""))
    else if component == "aws-s3-transfer-manager-rs" then
      JoinPath(JoinPath(JoinPath(JoinPath(JoinPath(repoRoot, "source"), "clients"), component), "target"), "release")
    else
      JoinPath(JoinPath(JoinPath(installDir, "lib"), "cmake"), component)
  }

  /** A directory path that `os.path.join` extends with exactly one `/`. */
  predicate PlainDir(d: string) {
    d != "" && d[|d| - 1] != '/'
  }

  /**
   * `is_built(c, install_dir)`: whether the probed directory exists. The filesystem is the
   * set of existing directories; the repository root is a parameter. A runner
   * `runner-<rest>` is looked for as `<install>/lib/cmake/runner-s3-<rest>`, the Rust
   * transfer manager as its cargo release directory, and anything else as
   * `<install>/lib/cmake/<component>`.
   */
  function IsBuilt(component: string, installDir: string, repoRoot: string, existingDirs: set<string>): (built: bool)
    ensures PlainDir(installDir) && StartsWith(component, "runner-") && RunnerRest(component[7..]) ==>
      (built <==> installDir + "/" + "lib" + "/" + "cmake" + "/" + ("runner-s3-" + component[7..]) in existingDirs)
    ensures PlainDir(repoRoot) && component == "aws-s3-transfer-manager-rs" ==>
      (built <==> repoRoot + "/" + "source" + "/" + "clients" + "/" + "aws-s3-transfer-manager-rs" + "/" + "target" + "/" + "release" in existingDirs)
    ensures PlainDir(installDir) && LibraryName(component) ==>
      (built <==> installDir + "/" + "lib" + "/" + "cmake" + "/" + component in existingDirs)
  {
    RunnerCase(component, installDir, repoRoot);
    RustCase(installDir, repoRoot);
    LibraryCase(component, installDir, repoRoot);
    ProbePath(component, installDir, repoRoot) in existingDirs
  }

  /** What follows `runner-` in a runner name that is probed as written. */
  predicate RunnerRest(rest: string) {
    !Occurs(rest, "runner-") && PlainDir(rest)
  }

  /** A component that is neither a runner nor the Rust transfer manager. */
  predicate LibraryName(component: string) {
    PlainPart(component) && !StartsWith(component, "runner-") && component != "aws-s3-transfer-manager-rs"
  }

  lemma RunnerCase(component: string, installDir: string, repoRoot: string)
    ensures PlainDir(installDir) && StartsWith(component, "runner-") && RunnerRest(component[7..]) ==>
      ProbePath(component, installDir, repoRoot) == installDir + "/" + "lib" + "/" + "cmake" + "/" + ("runner-s3-" + component[7..])
  {
    if PlainDir(installDir) && StartsWith(component, "runner-") && RunnerRest(component[7..]) {
      var rest := component[7..];
      assert component == "runner-" + rest;
      RunnerProbePath(rest, installDir, repoRoot);
    }
  }

  lemma RustCase(installDir: string, repoRoot: string)
    ensures PlainDir(repoRoot) ==>
      ProbePath("aws-s3-transfer-manager-rs", installDir, repoRoot)
        == repoRoot + "/" + "source" + "/" + "clients" + "/" + "aws-s3-transfer-manager-rs" + "/" + "target" + "/" + "release"
  {
    if PlainDir(repoRoot) {
      RustProbePath(installDir, repoRoot);
    }
  }

  lemma LibraryCase(component: string, installDir: string, repoRoot: string)
    ensures PlainDir(installDir) && LibraryName(component) ==>
      ProbePath(component, installDir, repoRoot) == installDir + "/" + "lib" + "/" + "cmake" + "/" + component
  {
    if PlainDir(installDir) && LibraryName(component) {
      LibraryProbePath(component, installDir, repoRoot);
    }
  }

  /** Removing every `runner-` from `runner-<rest>` leaves `rest` when `rest` holds no other. */
  lemma StripRunnerPrefix(rest: string)
    requires !Occurs(rest, "runner-")
    ensures ReplaceAll("runner-" + rest, "runner-", "") == rest
  {
    var c := "runner-" + rest;
    assert c[..7] == "runner-" && c[7..] == rest;
    ReplaceAllAbsent(rest, "runner-", "");
  }

  /**
   * A runner `runner-<rest>` is probed under `lib/cmake/runner-s3-<rest>`: the prefix is
   * removed and `runner-s3-` put in its place.
   */
  lemma RunnerProbePath(rest: string, installDir: string, repoRoot: string)
    requires installDir != "" && installDir[|installDir| - 1] != '/'
    requires !Occurs(rest, "runner-") && rest != "" && rest[|rest| - 1] != '/'
    ensures ProbePath("runner-" + rest, installDir, repoRoot)
      == installDir + "/" + "lib" + "/" + "cmake" + "/" + ("runner-s3-" + rest)
  {
    var c := "runner-" + rest;
    assert StartsWith(c, "runner-") by {
      assert c[..7] == "runner-";
    }
    StripRunnerPrefix(rest);
    var leaf := "runner-s3-" + rest;
    assert leaf[|leaf| - 1] == rest[|rest| - 1];
    JoinPlain(installDir, "lib");
    JoinPlain(installDir + "/" + "lib", "cmake");
    JoinPlain(installDir + "/" + "lib" + "/" + "cmake", leaf);
  }

  /** The shipped runner `runner-s3-c` is probed as `runner-s3-s3-c`: the whole prefix is kept. */
  lemma RunnerS3CProbePath(installDir: string, repoRoot: string)
    requires installDir != "" && installDir[|installDir| - 1] != '/'
    ensures ProbePath("runner-s3-c", installDir, repoRoot)
      == installDir + "/" + "lib" + "/" + "cmake" + "/" + ("runner-s3-" + "s3-c")
  {
    assert !Occurs("s3-c", "runner-");
    RunnerProbePath("s3-c", installDir, repoRoot);
    assert "runner-" + "s3-c" == "runner-s3-c";
  }

  /** The Rust transfer manager is probed at its cargo release directory under the repository. */
  lemma RustProbePath(installDir: string, repoRoot: string)
    requires repoRoot != "" && repoRoot[|repoRoot| - 1] != '/'
    ensures var c := "aws-s3-transfer-manager-rs";
      ProbePath(c, installDir, repoRoot)
        == repoRoot + "/" + "source" + "/" + "clients" + "/" + c + "/" + "target" + "/" + "release"
  {
    var c := "aws-s3-transfer-manager-rs";
    assert !StartsWith(c, "runner-") by {
      assert c[..7][0] == c[0];
    }
    JoinPlain(repoRoot, "source");
    JoinPlain(repoRoot + "/" + "source", "clients");
    JoinPlain(repoRoot + "/" + "source" + "/" + "clients", c);
    JoinPlain(repoRoot + "/" + "source" + "/" + "clients" + "/" + c, "target");
    JoinPlain(repoRoot + "/" + "source" + "/" + "clients" + "/" + c + "/" + "target", "release");
  }

  /** Any other component is probed under `lib/cmake/<component>` in the install directory. */
  lemma LibraryProbePath(component: string, installDir: string, repoRoot: string)
    requires installDir != "" && installDir[|installDir| - 1] != '/'
    requires PlainPart(component) && !StartsWith(component, "runner-") && component != "aws-s3-transfer-manager-rs"
    ensures ProbePath(component, installDir, repoRoot) == installDir + "/" + "lib" + "/" + "cmake" + "/" + component
  {
    JoinPlain(installDir, "lib");
    JoinPlain(installDir + "/" + "lib", "cmake");
    JoinPlain(installDir + "/" + "lib" + "/" + "cmake", component);
  }
}
