/**
 * The component dependency table of the benchmarker and the depth-first walks over it,
 * as pure definitions: the table itself, the direct-dependency lookup, the reverse
 * (direct-dependent) scan, and the post-order walk that both transitive queries use.
 * The walk is written once, parameterised by the direction of the edges it follows.
 * The lemmas prove what the walk yields on any table that is declared in dependency
 * order (every listed dependency is a key declared earlier), and that the shipped
 * table is such a table.
 */
module DependencyGraph {

  /** A table row: a component and its ordered direct dependencies. */
  type Entry = (string, seq<string>)

  /** The dependency table, in declaration order (a Python dict keeps insertion order). */
  type Table = seq<Entry>

  const Registry: Table := [
    ("aws-c-common", []),
    ("aws-lc", ["aws-c-common"]),
    ("s2n", ["aws-c-common"]),
    ("aws-c-cal", ["aws-c-common", "aws-lc", "s2n"]),
    ("aws-c-io", ["aws-c-common", "aws-c-cal", "s2n"]),
    ("aws-checksums", ["aws-c-common"]),
    ("aws-c-compression", ["aws-c-common"]),
    ("aws-c-http", ["aws-c-common", "aws-c-io", "aws-c-compression"]),
    ("aws-c-sdkutils", ["aws-c-common"]),
    ("aws-c-auth", ["aws-c-common", "aws-c-io", "aws-c-http", "aws-c-sdkutils", "aws-c-cal"]),
    ("aws-c-s3", ["aws-c-common", "aws-lc", "s2n", "aws-c-cal", "aws-c-io",
                  "aws-checksums", "aws-c-compression", "aws-c-http",
                  "aws-c-sdkutils", "aws-c-auth"]),
    ("aws-s3-transfer-manager-rs", []),
    ("runner-s3-c", ["aws-c-s3"]),
    ("runner-s3-rust", ["aws-s3-transfer-manager-rs"])
  ]

  // ---------------------------------------------------------------------------
  // Lookups

  function KeySet(g: Table): set<string> {
    set i | 0 <= i < |g| :: g[i].0
  }

  /** Every name the table mentions, as a key or as a listed dependency. */
  function Nodes(g: Table): set<string> {
    KeySet(g) + set i, j | 0 <= i < |g| && 0 <= j < |g[i].1| :: g[i].1[j]
  }

  /** `DEPENDENCIES.get(c, [])`: the list of the first row keyed `c`, or none for an unknown name. */
  function DirectDependencies(g: Table, c: string): seq<string>
    decreases |g|
  {
    if g == [] then [] else if g[0].0 == c then g[0].1 else DirectDependencies(g[1..], c)
  }

  /** The keys whose list contains `c`, in declaration order. */
  function DirectDependents(g: Table, c: string): (r: seq<string>)
    ensures |r| <= |g|
    decreases |g|
  {
    if g == [] then []
    else DirectDependents(g[..|g| - 1], c) + (if c in g[|g| - 1].1 then [g[|g| - 1].0] else [])
  }

  /** The index of the first row keyed `c`, or `|g|` when there is none. */
  function IndexOf(g: Table, c: string): (k: nat)
    ensures k <= |g|
    ensures k < |g| ==> g[k].0 == c
    ensures forall i | 0 <= i < k :: g[i].0 != c
  {
    IndexFrom(g, c, 0)
  }

  function IndexFrom(g: Table, c: string, from: nat): (k: nat)
    requires from <= |g|
    ensures from <= k <= |g|
    ensures k < |g| ==> g[k].0 == c
    ensures forall i | from <= i < k :: g[i].0 != c
    decreases |g| - from
  {
    if from == |g| then |g| else if g[from].0 == c then from else IndexFrom(g, c, from + 1)
  }

  /** The list looked up is the list of the first row with that key. */
  lemma {:induction false} DirectDependenciesAt(g: Table, c: string)
    ensures IndexOf(g, c) < |g| ==> DirectDependencies(g, c) == g[IndexOf(g, c)].1
    ensures IndexOf(g, c) == |g| ==> DirectDependencies(g, c) == []
    decreases |g|
  {
    if g != [] && g[0].0 != c {
      DirectDependenciesAt(g[1..], c);
      assert IndexOf(g[1..], c) == IndexOf(g, c) - 1 by {
        var k := IndexOf(g, c);
        forall i | 0 <= i < k - 1 ensures g[1..][i].0 != c {
          assert g[1..][i] == g[i + 1];
        }
        if k < |g| {
          assert g[1..][k - 1] == g[k];
        }
      }
    }
  }

  /** On a table with distinct keys, the lookup yields the row keyed `c`, or nothing for an unknown name. */
  lemma DirectDependenciesOfKey(g: Table, c: string)
    requires WellFormed(g)
    ensures c !in KeySet(g) ==> DirectDependencies(g, c) == []
    ensures forall i | 0 <= i < |g| && g[i].0 == c :: DirectDependencies(g, c) == g[i].1
  {
    DirectDependenciesAt(g, c);
    if c !in KeySet(g) {
      assert IndexOf(g, c) == |g|;
    }
    forall i | 0 <= i < |g| && g[i].0 == c ensures DirectDependencies(g, c) == g[i].1 {
      assert RowInOrder(g, i);
    }
  }

  /** `x` is a direct dependent of `c` exactly when some row keyed `x` lists `c`. */
  lemma {:induction false} DirectDependentsMembership(g: Table, c: string, x: string)
    ensures x in DirectDependents(g, c) <==> exists i | 0 <= i < |g| :: g[i].0 == x && c in g[i].1
    decreases |g|
  {
    if g != [] {
      var g' := g[..|g| - 1];
      DirectDependentsMembership(g', c, x);
      assert forall i | 0 <= i < |g'| :: g'[i] == g[i];
    }
  }

  // ---------------------------------------------------------------------------
  // Well-formed tables

  /** Row `j` is the first row with its key, and every component it lists is keyed earlier. */
  predicate RowInOrder(g: Table, j: nat)
    requires j < |g|
  {
    IndexOf(g, g[j].0) == j && forall d <- g[j].1 :: IndexOf(g, d) < j
  }

  /**
   * The table is declared in dependency order: keys are distinct, and each row lists
   * only components keyed in earlier rows. This makes the table closed and acyclic.
   */
  predicate WellFormed(g: Table) {
    forall j | 0 <= j < |g| :: RowInOrder(g, j)
  }

  predicate DistinctKeys(g: Table) {
    forall i, j | 0 <= i < j < |g| :: g[i].0 != g[j].0
  }

  /** A well-formed table has distinct keys, every listed dependency is a key, and no row lists its own key. */
  lemma WellFormedClosed(g: Table)
    requires WellFormed(g)
    ensures DistinctKeys(g)
    ensures forall i, j | 0 <= i < |g| && 0 <= j < |g[i].1| :: g[i].1[j] in KeySet(g)
    ensures forall i | 0 <= i < |g| :: g[i].0 !in g[i].1
  {
    forall i, j | 0 <= i < j < |g| ensures g[i].0 != g[j].0 {
      assert RowInOrder(g, j);
    }
    forall i, j | 0 <= i < |g| && 0 <= j < |g[i].1| ensures g[i].1[j] in KeySet(g) {
      assert RowInOrder(g, i) && g[i].1[j] in g[i].1;
      var k := IndexOf(g, g[i].1[j]);
      assert g[k].0 == g[i].1[j];
    }
    forall i | 0 <= i < |g| ensures g[i].0 !in g[i].1 {
      assert RowInOrder(g, i);
    }
  }

  /**
   * `pos` gives, for each listed dependency, an earlier row keyed by it: a certificate
   * that the table is declared in dependency order.
   */
  predicate Certifies(g: Table, pos: seq<seq<nat>>) {
    |pos| == |g| && forall i | 0 <= i < |g| :: RowCertified(g, i, pos[i])
  }

  predicate RowCertified(g: Table, i: nat, rows: seq<nat>)
    requires i < |g|
  {
    |rows| == |g[i].1| && forall j | 0 <= j < |rows| :: rows[j] < i && g[rows[j]].0 == g[i].1[j]
  }

  lemma CertifiedWellFormed(g: Table, pos: seq<seq<nat>>)
    requires DistinctKeys(g) && Certifies(g, pos)
    ensures WellFormed(g)
  {
    forall i | 0 <= i < |g| ensures RowInOrder(g, i) {
      var k := IndexOf(g, g[i].0);
      assert k <= i;
      assert RowCertified(g, i, pos[i]);
      forall d <- g[i].1 ensures IndexOf(g, d) < i {
        var j :| 0 <= j < |g[i].1| && g[i].1[j] == d;
        assert IndexOf(g, d) <= pos[i][j];
      }
    }
  }

  /** For each row of `Registry`, the rows that declare the components it lists. */
  const RegistryRows: seq<seq<nat>> := [
    [], [0], [0], [0, 1, 2], [0, 3, 2], [0], [0], [0, 4, 6], [0], [0, 4, 7, 8, 3],
    [0, 1, 2, 3, 4, 5, 6, 7, 8, 9], [], [10], [11]
  ]

  lemma RegistryKeysDistinct()
    ensures DistinctKeys(Registry)
  {
  }

  lemma RegistryCertifiedC()
    ensures forall i | 0 <= i < 5 :: RowCertified(Registry, i, RegistryRows[i])
  {
  }

  lemma RegistryCertifiedCLibraries()
    ensures forall i | 5 <= i < 10 :: RowCertified(Registry, i, RegistryRows[i])
  {
  }

  lemma RegistryCertifiedClient()
    ensures RowCertified(Registry, 10, RegistryRows[10])
  {
  }

  lemma RegistryCertifiedRunners()
    ensures forall i | 11 <= i < 14 :: RowCertified(Registry, i, RegistryRows[i])
  {
  }

  lemma RegistryCertified()
    ensures Certifies(Registry, RegistryRows)
  {
    RegistryCertifiedC();
    RegistryCertifiedCLibraries();
    RegistryCertifiedClient();
    RegistryCertifiedRunners();
  }

  /**
   * The shipped table is well formed: its keys are distinct (as a dict's are) and each row
   * lists only components declared above it; by `WellFormedClosed` every listed dependency
   * is then a key and no component lists itself, and by `Acyclic` there is no cycle.
   */
  lemma RegistryWellFormed()
    ensures WellFormed(Registry)
  {
    RegistryKeysDistinct();
    RegistryCertified();
    CertifiedWellFormed(Registry, RegistryRows);
  }

  // ---------------------------------------------------------------------------
  // Edges and paths

  /** Forward walks follow `get_dependencies`; reverse walks follow `get_dependents`. */
  datatype Direction = Forward | Reverse

  function Next(g: Table, dir: Direction, c: string): seq<string> {
    match dir
    case Forward => DirectDependencies(g, c)
    case Reverse => DirectDependents(g, c)
  }

  lemma {:induction false} NextInNodes(g: Table, dir: Direction, c: string)
    ensures forall x <- Next(g, dir, c) :: x in Nodes(g)
  {
    DirectDependenciesAt(g, c);
    forall x <- Next(g, dir, c) ensures x in Nodes(g) {
      if dir == Forward {
        var k := IndexOf(g, c);
        var j :| 0 <= j < |g[k].1| && g[k].1[j] == x;
      } else {
        DirectDependentsMembership(g, c, x);
        var i :| 0 <= i < |g| && g[i].0 == x && c in g[i].1;
      }
    }
  }

  /**
   * On a well-formed table, `v` is a direct dependent of `u` exactly when `v` is a key
   * whose direct dependencies contain `u`: the reverse scan inverts the lookup.
   */
  lemma DependentsInvertDependencies(g: Table, u: string, v: string)
    requires WellFormed(g)
    ensures v in DirectDependents(g, u) <==> v in KeySet(g) && u in DirectDependencies(g, v)
  {
    DirectDependentsMembership(g, u, v);
    DirectDependenciesAt(g, v);
    if v in DirectDependents(g, u) {
      var i :| 0 <= i < |g| && g[i].0 == v && u in g[i].1;
      assert RowInOrder(g, i);
    }
    if v in KeySet(g) && u in DirectDependencies(g, v) {
      var i :| 0 <= i < |g| && g[i].0 == v;
      assert IndexOf(g, v) < |g|;
    }
  }

  lemma HasDependenciesIsKey(g: Table, c: string)
    ensures DirectDependencies(g, c) != [] ==> c in KeySet(g)
  {
    DirectDependenciesAt(g, c);
    if IndexOf(g, c) < |g| {
      assert g[IndexOf(g, c)].0 == c;
    }
  }

  /** A component's rank: its row in a forward walk, the negated row in a reverse walk. */
  function Potential(g: Table, dir: Direction, c: string): int {
    var k: int := IndexOf(g, c);
    if dir == Forward then k else -k
  }

  lemma NextLowersPotential(g: Table, dir: Direction, u: string, v: string)
    requires WellFormed(g) && v in Next(g, dir, u)
    ensures Potential(g, dir, v) < Potential(g, dir, u)
  {
    DirectDependenciesAt(g, u);
    if dir == Forward {
      assert RowInOrder(g, IndexOf(g, u));
    } else {
      DirectDependentsMembership(g, u, v);
      var i :| 0 <= i < |g| && g[i].0 == v && u in g[i].1;
      assert RowInOrder(g, i);
    }
  }

  /** `p` follows edges of direction `dir` from `p[0]` to its last element. */
  ghost predicate IsPath(g: Table, dir: Direction, p: seq<string>) {
    |p| > 0 && forall i | 0 <= i < |p| - 1 :: p[i + 1] in Next(g, dir, p[i])
  }

  ghost predicate Reaches(g: Table, dir: Direction, a: string, b: string) {
    exists p :: IsPath(g, dir, p) && p[0] == a && p[|p| - 1] == b
  }

  lemma ReachesSelf(g: Table, dir: Direction, a: string)
    ensures Reaches(g, dir, a, a)
  {
    assert IsPath(g, dir, [a]);
  }

  lemma ReachesStep(g: Table, dir: Direction, a: string, b: string, c: string)
    requires Reaches(g, dir, a, b) && c in Next(g, dir, b)
    ensures Reaches(g, dir, a, c)
  {
    var p :| IsPath(g, dir, p) && p[0] == a && p[|p| - 1] == b;
    var q := p + [c];
    assert IsPath(g, dir, q);
  }

  lemma {:induction false} PathLowersPotential(g: Table, dir: Direction, p: seq<string>)
    requires WellFormed(g) && IsPath(g, dir, p) && |p| > 1
    ensures Potential(g, dir, p[|p| - 1]) < Potential(g, dir, p[0])
    decreases |p|
  {
    NextLowersPotential(g, dir, p[0], p[1]);
    if |p| > 2 {
      var q := p[1..];
      assert IsPath(g, dir, q) by {
        forall i | 0 <= i < |q| - 1 ensures q[i + 1] in Next(g, dir, q[i]) {
          assert q[i] == p[i + 1] && q[i + 1] == p[i + 2];
        }
      }
      PathLowersPotential(g, dir, q);
    }
  }

  /** A well-formed table has no cycle: a path of one edge or more never returns to its start. */
  lemma Acyclic(g: Table, dir: Direction, p: seq<string>)
    requires WellFormed(g) && IsPath(g, dir, p) && |p| > 1
    ensures p[|p| - 1] != p[0]
  {
    PathLowersPotential(g, dir, p);
  }

  /** The path `p` walked backwards. */
  function Reversed(p: seq<string>): (q: seq<string>)
    ensures |q| == |p| && forall i | 0 <= i < |p| :: q[i] == p[|p| - 1 - i]
  {
    seq(|p|, i requires 0 <= i < |p| => p[|p| - 1 - i])
  }

  lemma ReversePathForward(g: Table, p: seq<string>)
    requires WellFormed(g) && IsPath(g, Reverse, p)
    ensures IsPath(g, Forward, Reversed(p))
  {
    var q := Reversed(p);
    forall i | 0 <= i < |q| - 1 ensures q[i + 1] in Next(g, Forward, q[i]) {
      DependentsInvertDependencies(g, p[|p| - 2 - i], p[|p| - 1 - i]);
    }
  }

  lemma ForwardPathReverse(g: Table, p: seq<string>)
    requires WellFormed(g) && IsPath(g, Forward, p)
    ensures IsPath(g, Reverse, Reversed(p))
  {
    var q := Reversed(p);
    forall i | 0 <= i < |q| - 1 ensures q[i + 1] in Next(g, Reverse, q[i]) {
      var u, v := p[|p| - 1 - i], p[|p| - 2 - i];
      HasDependenciesIsKey(g, v);
      DependentsInvertDependencies(g, u, v);
    }
  }

  /** Reversing a reverse path gives a forward path, and conversely. */
  lemma ReachesReversed(g: Table, a: string, b: string)
    requires WellFormed(g)
    ensures Reaches(g, Reverse, a, b) <==> Reaches(g, Forward, b, a)
  {
    if Reaches(g, Reverse, a, b) {
      var p :| IsPath(g, Reverse, p) && p[0] == a && p[|p| - 1] == b;
      ReversePathForward(g, p);
      var q := Reversed(p);
      assert q[0] == b && q[|q| - 1] == a;
    }
    if Reaches(g, Forward, b, a) {
      var p :| IsPath(g, Forward, p) && p[0] == b && p[|p| - 1] == a;
      ForwardPathReverse(g, p);
      var q := Reversed(p);
      assert q[0] == a && q[|q| - 1] == b;
    }
  }

  // ---------------------------------------------------------------------------
  // The depth-first walk shared by get_all_dependencies and get_all_dependents

  /** The state of a walk: the names already entered and the output so far. */
  datatype Walk = Walk(visited: set<string>, result: seq<string>)

  /** Every name a walk from `start` can meet. */
  function Universe(g: Table, start: string): set<string> {
    Nodes(g) + {start}
  }

  /** A finished component is output, except the start of a reverse walk. */
  predicate Emits(dir: Direction, start: string, comp: string) {
    dir == Forward || comp != start
  }

  /**
   * `visit(comp)`: skip a name already entered; otherwise mark it, visit its
   * neighbours in order, then output it (post-order).
   */
  function Visit(g: Table, dir: Direction, start: string, w: Walk, comp: string): (w': Walk)
    requires w.visited <= Universe(g, start) && comp in Universe(g, start)
    ensures w.visited <= w'.visited <= Universe(g, start)
    ensures comp in w'.visited
    ensures w.result <= w'.result
    ensures dir == Reverse && start !in w.result ==> start !in w'.result
    decreases Universe(g, start) - w.visited, 0, 0
  {
    if comp in w.visited then w
    else
      NextInNodes(g, dir, comp);
      var inner := VisitEach(g, dir, start, Walk(w.visited + {comp}, w.result), Next(g, dir, comp));
      if Emits(dir, start, comp) then Walk(inner.visited, inner.result + [comp]) else inner
  }

  /** Visits `comps` in order. */
  function VisitEach(g: Table, dir: Direction, start: string, w: Walk, comps: seq<string>): (w': Walk)
    requires w.visited <= Universe(g, start) && forall c <- comps :: c in Universe(g, start)
    ensures w.visited <= w'.visited <= Universe(g, start)
    ensures w.result <= w'.result
    ensures dir == Reverse && start !in w.result ==> start !in w'.result
    decreases Universe(g, start) - w.visited, 1, |comps|
  {
    if comps == [] then w
    else VisitEach(g, dir, start, Visit(g, dir, start, w, comps[0]), comps[1..])
  }

  /** `get_all_dependencies(c)`: every component `c` transitively needs, then `c` itself. */
  function AllDependencies(g: Table, c: string): (r: seq<string>)
    ensures |r| > 0 && r[|r| - 1] == c
  {
    Visit(g, Forward, c, Walk({}, []), c).result
  }

  /** `get_all_dependents(c)`: every component that transitively needs `c`, without `c`. */
  function AllDependents(g: Table, c: string): (r: seq<string>)
    ensures c !in r
  {
    Visit(g, Reverse, c, Walk({}, []), c).result
  }

  // ---------------------------------------------------------------------------
  // What the walk computes

  function Elems(s: seq<string>): set<string> {
    set x | x in s
  }

  ghost predicate NoDup(s: seq<string>) {
    forall i, j | 0 <= i < j < |s| :: s[i] != s[j]
  }

  /** Each output name comes after every neighbour it has. */
  ghost predicate PostOrdered(g: Table, dir: Direction, r: seq<string>) {
    forall i | 0 <= i < |r| :: forall d <- Next(g, dir, r[i]) :: d in r[..i]
  }

  /** What holds of the walk from `start` between any two steps. */
  ghost predicate WalkInv(g: Table, dir: Direction, start: string, w: Walk) {
    NoDup(w.result) && Elems(w.result) <= w.visited && PostOrdered(g, dir, w.result) &&
    (forall x <- w.result :: Emits(dir, start, x)) &&
    (forall x <- w.visited :: Reaches(g, dir, start, x))
  }

  /** The names entered but not yet finished, the start aside. */
  ghost function Pending(w: Walk, start: string): set<string> {
    w.visited - Elems(w.result) - {start}
  }

  /** `w'` continues `w`: more names entered, output only appended, and only with new names. */
  ghost predicate Extends(w: Walk, w': Walk) {
    w.visited <= w'.visited && w.result <= w'.result &&
    forall x <- w'.result[|w.result|..] :: x !in w.visited
  }

  lemma ExtendsTransitive(w1: Walk, w2: Walk, w3: Walk)
    requires Extends(w1, w2) && Extends(w2, w3)
    ensures Extends(w1, w3)
  {
    forall x <- w3.result[|w1.result|..] ensures x !in w1.visited {
      var i :| |w1.result| <= i < |w3.result| && w3.result[i] == x;
      if i < |w2.result| {
        assert w2.result[i] == x;
        assert x in w2.result[|w1.result|..];
      } else {
        assert x in w3.result[|w2.result|..];
      }
    }
  }

  lemma PostOrderedAppend(g: Table, dir: Direction, r: seq<string>, x: string)
    requires PostOrdered(g, dir, r) && forall d <- Next(g, dir, x) :: d in r
    ensures PostOrdered(g, dir, r + [x])
  {
    var r' := r + [x];
    forall i | 0 <= i < |r'| ensures forall d <- Next(g, dir, r'[i]) :: d in r'[..i] {
      if i < |r| {
        assert r'[i] == r[i] && r'[..i] == r[..i];
      } else {
        assert r'[..i] == r;
      }
    }
  }

  lemma ReachesPotential(g: Table, dir: Direction, a: string, b: string)
    requires WellFormed(g) && Reaches(g, dir, a, b)
    ensures Potential(g, dir, b) <= Potential(g, dir, a)
  {
    var p :| IsPath(g, dir, p) && p[0] == a && p[|p| - 1] == b;
    if |p| > 1 {
      PathLowersPotential(g, dir, p);
    }
  }

  /** What one `visit` of `comp` achieves, taking the walk from `w` to `w'`. */
  ghost predicate VisitPost(g: Table, dir: Direction, start: string, w: Walk, comp: string, w': Walk) {
    WalkInv(g, dir, start, w') && Pending(w', start) == Pending(w, start) && Extends(w, w') &&
    (Emits(dir, start, comp) ==> comp in w'.result) &&
    (forall d <- Next(g, dir, comp) :: d in w'.result) &&
    (comp !in w.visited && Emits(dir, start, comp) ==> w'.result[|w'.result| - 1] == comp)
  }

  lemma {:induction false} VisitCorrect(g: Table, dir: Direction, start: string, w: Walk, comp: string)
    requires WellFormed(g)
    requires w.visited <= Universe(g, start) && comp in Universe(g, start)
    requires WalkInv(g, dir, start, w)
    requires Reaches(g, dir, start, comp)
    requires comp == start ==> start !in w.visited
    requires forall s <- Pending(w, start) :: Potential(g, dir, comp) < Potential(g, dir, s)
    ensures VisitPost(g, dir, start, w, comp, Visit(g, dir, start, w, comp))
    decreases Universe(g, start) - w.visited, 0, 1
  {
    if comp in w.visited {
      VisitedCorrect(g, dir, start, w, comp);
    } else {
      FreshCorrect(g, dir, start, w, comp);
    }
  }

  /** Entering a new name: its neighbours are visited first, then it is output. */
  lemma {:induction false} FreshCorrect(g: Table, dir: Direction, start: string, w: Walk, comp: string)
    requires WellFormed(g)
    requires w.visited <= Universe(g, start) && comp in Universe(g, start) && comp !in w.visited
    requires WalkInv(g, dir, start, w)
    requires Reaches(g, dir, start, comp)
    requires forall s <- Pending(w, start) :: Potential(g, dir, comp) < Potential(g, dir, s)
    ensures VisitPost(g, dir, start, w, comp, Visit(g, dir, start, w, comp))
    decreases Universe(g, start) - w.visited, 0, 0
  {
    NextInNodes(g, dir, comp);
    var w1 := Walk(w.visited + {comp}, w.result);
    var next := Next(g, dir, comp);
    ReachesPotential(g, dir, start, comp);
    forall c <- next ensures Reaches(g, dir, start, c) && c != start
      && forall s <- Pending(w1, start) :: Potential(g, dir, c) < Potential(g, dir, s)
    {
      ReachesStep(g, dir, start, comp, c);
      NextLowersPotential(g, dir, comp, c);
    }
    assert w.result[|w.result|..] == [];
    VisitEachCorrect(g, dir, start, w1, next);
    var inner := VisitEach(g, dir, start, w1, next);
    assert comp !in inner.result;
    if Emits(dir, start, comp) {
      FinishCorrect(g, dir, start, w, comp, inner);
    }
  }

  /** A name entered before is already finished: the walk state is kept and its neighbours are output. */
  lemma VisitedCorrect(g: Table, dir: Direction, start: string, w: Walk, comp: string)
    requires WalkInv(g, dir, start, w) && comp in w.visited
    requires comp == start ==> start !in w.visited
    requires forall s <- Pending(w, start) :: Potential(g, dir, comp) < Potential(g, dir, s)
    ensures Extends(w, w) && comp in w.result && forall d <- Next(g, dir, comp) :: d in w.result
  {
    assert comp in Elems(w.result) by {
      assert comp !in Pending(w, start);
    }
    var i :| 0 <= i < |w.result| && w.result[i] == comp;
    assert w.result[|w.result|..] == [];
    forall d <- Next(g, dir, comp) ensures d in w.result {
      assert d in w.result[..i];
    }
  }

  /** Outputting `comp` after its neighbours keeps the invariant and finishes `comp`. */
  lemma FinishCorrect(g: Table, dir: Direction, start: string, w: Walk, comp: string, inner: Walk)
    requires comp !in w.visited && Emits(dir, start, comp) && Reaches(g, dir, start, comp)
    requires WalkInv(g, dir, start, inner) && comp in inner.visited && comp !in inner.result
    requires forall d <- Next(g, dir, comp) :: d in inner.result
    requires Extends(Walk(w.visited + {comp}, w.result), inner)
    requires Pending(inner, start) == Pending(Walk(w.visited + {comp}, w.result), start)
    ensures var w' := Walk(inner.visited, inner.result + [comp]);
      WalkInv(g, dir, start, w') && Pending(w', start) == Pending(w, start) && Extends(w, w') &&
      w'.result[|w'.result| - 1] == comp
  {
    var w1 := Walk(w.visited + {comp}, w.result);
    var w' := Walk(inner.visited, inner.result + [comp]);
    PostOrderedAppend(g, dir, inner.result, comp);
    assert Elems(w'.result) == Elems(inner.result) + {comp};
    assert Pending(w', start) == Pending(inner, start) - {comp};
    assert Pending(w1, start) - {comp} == Pending(w, start);
    forall x <- w'.result[|w.result|..] ensures x !in w.visited {
      if x != comp {
        var i :| |w.result| <= i < |w'.result| && w'.result[i] == x;
        assert i < |inner.result|;
        assert x in inner.result[|w1.result|..];
      }
    }
  }

  lemma {:induction false} VisitEachCorrect(g: Table, dir: Direction, start: string, w: Walk, comps: seq<string>)
    requires WellFormed(g)
    requires w.visited <= Universe(g, start) && forall c <- comps :: c in Universe(g, start)
    requires WalkInv(g, dir, start, w)
    requires forall c <- comps :: Reaches(g, dir, start, c) && c != start
    requires forall c <- comps :: forall s <- Pending(w, start) :: Potential(g, dir, c) < Potential(g, dir, s)
    ensures var w' := VisitEach(g, dir, start, w, comps);
      WalkInv(g, dir, start, w') && Pending(w', start) == Pending(w, start) && Extends(w, w') &&
      forall c <- comps :: c in w'.result
    decreases Universe(g, start) - w.visited, 1, |comps|
  {
    if comps == [] {
      assert w.result[|w.result|..] == [];
    } else {
      VisitCorrect(g, dir, start, w, comps[0]);
      var w2 := Visit(g, dir, start, w, comps[0]);
      VisitEachCorrect(g, dir, start, w2, comps[1..]);
      var w3 := VisitEach(g, dir, start, w2, comps[1..]);
      ExtendsTransitive(w, w2, w3);
      forall c <- comps ensures c in w3.result {
        if c == comps[0] {
          var i :| 0 <= i < |w2.result| && w2.result[i] == c;
          assert w3.result[i] == c;
        }
      }
    }
  }

  /** The whole walk from `start`, as both transitive queries run it. */
  lemma WalkFromStart(g: Table, dir: Direction, start: string)
    requires WellFormed(g)
    ensures var w := Visit(g, dir, start, Walk({}, []), start);
      WalkInv(g, dir, start, w) &&
      (forall d <- Next(g, dir, start) :: d in w.result) &&
      (dir == Forward ==> |w.result| > 0 && w.result[|w.result| - 1] == start)
  {
    ReachesSelf(g, dir, start);
    VisitCorrect(g, dir, start, Walk({}, []), start);
  }

  /** Names reached from a member of a neighbour-closed set stay in it. */
  lemma ClosedUnderReach(g: Table, dir: Direction, s: set<string>, a: string, b: string)
    requires a in s && forall x <- s :: forall d <- Next(g, dir, x) :: d in s
    requires Reaches(g, dir, a, b)
    ensures b in s
  {
    var p :| IsPath(g, dir, p) && p[0] == a && p[|p| - 1] == b;
    var i := 0;
    while i < |p| - 1
      invariant 0 <= i < |p| && p[i] in s
    {
      i := i + 1;
    }
  }

  lemma PostOrderedClosed(g: Table, dir: Direction, r: seq<string>)
    requires PostOrdered(g, dir, r)
    ensures forall x <- Elems(r) :: forall d <- Next(g, dir, x) :: d in Elems(r)
  {
    forall x <- Elems(r), d <- Next(g, dir, x) ensures d in Elems(r) {
      var i :| 0 <= i < |r| && r[i] == x;
      assert d in r[..i];
    }
  }

  // ---------------------------------------------------------------------------
  // get_all_dependencies

  /**
   * `get_all_dependencies(c)` lists each name once, ends with `c`, and holds exactly the
   * names `c` transitively depends on (with `c` itself).
   */
  lemma AllDependenciesMembers(g: Table, c: string)
    requires WellFormed(g)
    ensures var r := AllDependencies(g, c);
      NoDup(r) && |r| > 0 && r[|r| - 1] == c &&
      forall x :: x in r <==> Reaches(g, Forward, c, x)
  {
    WalkFromStart(g, Forward, c);
    var r := AllDependencies(g, c);
    PostOrderedClosed(g, Forward, r);
    forall x ensures x in r <==> Reaches(g, Forward, c, x) {
      if Reaches(g, Forward, c, x) {
        ClosedUnderReach(g, Forward, Elems(r), c, x);
      }
    }
  }

  /** Build order: every component comes after all of its direct dependencies. */
  lemma AllDependenciesBuildOrder(g: Table, c: string)
    requires WellFormed(g)
    ensures var r := AllDependencies(g, c);
      (forall i | 0 <= i < |r| :: forall d <- DirectDependencies(g, r[i]) :: d in r) &&
      forall i, j | 0 <= i < |r| && 0 <= j < |r| && r[j] in DirectDependencies(g, r[i]) :: j < i
  {
    WalkFromStart(g, Forward, c);
    var r := AllDependencies(g, c);
    forall i, d | 0 <= i < |r| && d in DirectDependencies(g, r[i]) ensures d in r {
      assert d in r[..i];
    }
    forall i, j | 0 <= i < |r| && 0 <= j < |r| && r[j] in DirectDependencies(g, r[i]) ensures j < i {
      assert r[j] in r[..i];
      var k :| 0 <= k < i && r[k] == r[j];
    }
  }

  /** A name the table does not know yields only itself: `get` falls back to no dependencies. */
  lemma AllDependenciesUnknown(g: Table, c: string)
    requires c !in KeySet(g)
    ensures AllDependencies(g, c) == [c]
  {
    DirectDependenciesAt(g, c);
    assert IndexOf(g, c) == |g|;
    assert Next(g, Forward, c) == [];
    assert VisitEach(g, Forward, c, Walk({c}, []), []) == Walk({c}, []);
    assert Visit(g, Forward, c, Walk({}, []), c) == Walk({c}, [c]);
  }

  // ---------------------------------------------------------------------------
  // get_all_dependents

  /**
   * `get_all_dependents(c)` lists each name once, leaves out `c`, and holds exactly the
   * other names that transitively depend on `c`.
   */
  lemma AllDependentsMembers(g: Table, c: string)
    requires WellFormed(g)
    ensures var r := AllDependents(g, c);
      NoDup(r) && c !in r &&
      forall x :: x in r <==> x != c && Reaches(g, Forward, x, c)
  {
    WalkFromStart(g, Reverse, c);
    var r := AllDependents(g, c);
    PostOrderedClosed(g, Reverse, r);
    forall x ensures x in r <==> x != c && Reaches(g, Forward, x, c) {
      ReachesReversed(g, c, x);
      if x != c && Reaches(g, Reverse, c, x) {
        ClosedUnderReach(g, Reverse, Elems(r) + {c}, c, x);
      }
    }
  }

  /** Every component is listed before the components it directly depends on. */
  lemma AllDependentsOrder(g: Table, c: string)
    requires WellFormed(g)
    ensures var r := AllDependents(g, c);
      (forall d <- DirectDependents(g, c) :: d in r) &&
      forall i, j | 0 <= i < |r| && 0 <= j < |r| && r[j] in DirectDependencies(g, r[i]) :: i < j
  {
    WalkFromStart(g, Reverse, c);
    var r := AllDependents(g, c);
    forall i, j | 0 <= i < |r| && 0 <= j < |r| && r[j] in DirectDependencies(g, r[i]) ensures i < j {
      HasDependenciesIsKey(g, r[i]);
      DependentsInvertDependencies(g, r[j], r[i]);
      assert r[i] in r[..j];
      var k :| 0 <= k < j && r[k] == r[i];
    }
  }

  /** The two queries are converse: `d` depends on `c` exactly when `c` is a dependency of `d`. */
  lemma DependentsDependenciesConverse(g: Table, c: string, d: string)
    requires WellFormed(g) && c != d
    ensures d in AllDependents(g, c) <==> c in AllDependencies(g, d)
  {
    AllDependentsMembers(g, c);
    AllDependenciesMembers(g, d);
  }

  /**
   * Nothing detects a cycle: on a table where `a` and `b` list each other, the visited
   * set stops the walk and each name is output once.
   */
  lemma CycleTerminatesSilently()
    ensures AllDependencies([("a", ["b"]), ("b", ["a"])], "a") == ["b", "a"]
  {
    var g: Table := [("a", ["b"]), ("b", ["a"])];
    assert DirectDependencies(g, "a") == ["b"];
    assert DirectDependencies(g, "b") == ["a"];
    var both := Walk({"a"} + {"b"}, []);
    assert "a" in both.visited && "b" !in {"a"};
    assert Visit(g, Forward, "a", both, "a") == both;
    assert VisitEach(g, Forward, "a", both, ["a"]) == both;
    var afterB := Visit(g, Forward, "a", Walk({"a"}, []), "b");
    assert afterB == Walk(both.visited, ["b"]);
    assert VisitEach(g, Forward, "a", Walk({"a"}, []), ["b"]) == afterB;
    assert Walk({} + {"a"}, []) == Walk({"a"}, []);
    assert Visit(g, Forward, "a", Walk({}, []), "a") == Walk(both.visited, ["b"] + ["a"]);
  }

  // ---------------------------------------------------------------------------
  // A walk whose components are already in order

  /** Visiting names that are all visited changes nothing. */
  lemma {:induction false} VisitEachVisited(g: Table, dir: Direction, start: string, w: Walk, comps: seq<string>)
    requires w.visited <= Universe(g, start) && forall c <- comps :: c in w.visited
    ensures VisitEach(g, dir, start, w, comps) == w
    decreases |comps|
  {
    if comps != [] {
      VisitEachVisited(g, dir, start, w, comps[1..]);
    }
  }

  /** A name whose neighbours are all visited is entered and output at once. */
  lemma VisitReady(g: Table, dir: Direction, start: string, w: Walk, c: string)
    requires w.visited <= Universe(g, start) && c in Universe(g, start)
    requires c !in w.visited && Emits(dir, start, c)
    requires forall d <- Next(g, dir, c) :: d in w.visited
    ensures Visit(g, dir, start, w, c) == Walk(w.visited + {c}, w.result + [c])
  {
    NextInNodes(g, dir, c);
    VisitEachVisited(g, dir, start, Walk(w.visited + {c}, w.result), Next(g, dir, c));
  }

  /**
   * Every name of `comps` is new, listed once, and has only neighbours that are visited
   * or listed before it.
   */
  ghost predicate Ready(g: Table, dir: Direction, visited: set<string>, comps: seq<string>) {
    (forall i | 0 <= i < |comps| :: comps[i] !in visited) &&
    (forall i, j | 0 <= i < j < |comps| :: comps[i] != comps[j]) &&
    (forall i | 0 <= i < |comps| :: Elems(Next(g, dir, comps[i])) <= visited + Elems(comps[..i]))
  }

  lemma ReadyTailNext(g: Table, dir: Direction, visited: set<string>, comps: seq<string>)
    requires |comps| > 0
    requires forall i | 0 <= i < |comps| :: Elems(Next(g, dir, comps[i])) <= visited + Elems(comps[..i])
    ensures Elems(Next(g, dir, comps[0])) <= visited
    ensures forall i | 0 <= i < |comps[1..]| ::
      Elems(Next(g, dir, comps[1..][i])) <= visited + {comps[0]} + Elems(comps[1..][..i])
  {
    var c, rest := comps[0], comps[1..];
    assert Elems(comps[..0]) == {};
    forall i | 0 <= i < |rest| ensures Elems(Next(g, dir, rest[i])) <= visited + {c} + Elems(rest[..i]) {
      assert rest[i] == comps[i + 1] && comps[..i + 1] == [c] + rest[..i];
    }
  }

  lemma ReadyTail(g: Table, dir: Direction, visited: set<string>, comps: seq<string>)
    requires |comps| > 0 && Ready(g, dir, visited, comps)
    ensures Elems(Next(g, dir, comps[0])) <= visited && comps[0] !in visited
    ensures Ready(g, dir, visited + {comps[0]}, comps[1..])
  {
    var c, rest := comps[0], comps[1..];
    ReadyTailNext(g, dir, visited, comps);
    forall i | 0 <= i < |rest| ensures rest[i] !in visited + {c} {
      assert rest[i] == comps[i + 1];
    }
    forall i, j | 0 <= i < j < |rest| ensures rest[i] != rest[j] {
      assert rest[i] == comps[i + 1] && rest[j] == comps[j + 1];
    }
  }

  /** Every name of `comps` can be met by the walk from `start`, and is output when finished. */
  predicate Emitted(g: Table, dir: Direction, start: string, comps: seq<string>) {
    forall c <- comps :: c in Universe(g, start) && Emits(dir, start, c)
  }

  /** Visiting a non-empty list is visiting its head, then its tail. */
  lemma VisitEachCons(g: Table, dir: Direction, start: string, w: Walk, comps: seq<string>)
    requires |comps| > 0 && w.visited <= Universe(g, start) && Emitted(g, dir, start, comps)
    ensures Emitted(g, dir, start, comps[1..])
    ensures VisitEach(g, dir, start, w, comps)
      == VisitEach(g, dir, start, Visit(g, dir, start, w, comps[0]), comps[1..])
  {
    assert forall c <- comps[1..] :: c in comps;
  }

  /** Outputting `c` and then `rest` is outputting `[c] + rest`. */
  lemma ConsWalk(w: Walk, comps: seq<string>)
    requires |comps| > 0
    ensures var w1 := Walk(w.visited + {comps[0]}, w.result + [comps[0]]);
      Walk(w1.visited + Elems(comps[1..]), w1.result + comps[1..]) == Walk(w.visited + Elems(comps), w.result + comps)
  {
    assert comps == [comps[0]] + comps[1..];
    assert Elems(comps) == {comps[0]} + Elems(comps[1..]);
    assert w.result + [comps[0]] + comps[1..] == w.result + comps;
  }

  /** When the names of `comps` are ready, the walk takes them in order and outputs each at once. */
  lemma {:induction false} VisitEachReady(g: Table, dir: Direction, start: string, w: Walk, comps: seq<string>)
    requires w.visited <= Universe(g, start) && Emitted(g, dir, start, comps)
    requires Ready(g, dir, w.visited, comps)
    ensures VisitEach(g, dir, start, w, comps) == Walk(w.visited + Elems(comps), w.result + comps)
    decreases |comps|
  {
    if comps == [] {
      assert Elems(comps) == {};
      assert w.result + [] == w.result;
    } else {
      var c := comps[0];
      ReadyTail(g, dir, w.visited, comps);
      VisitEachCons(g, dir, start, w, comps);
      VisitReady(g, dir, start, w, c);
      var w' := Walk(w.visited + {c}, w.result + [c]);
      VisitEachReady(g, dir, start, w', comps[1..]);
      ConsWalk(w, comps);
    }
  }

  /** Each earlier key's own dependencies are keyed above it, so listed before it in row `k`. */
  lemma EarlierKeysListed(g: Table, k: nat, i: nat)
    requires WellFormed(g) && i < k < |g|
    requires |g[k].1| == k && forall i | 0 <= i < k :: g[k].1[i] == g[i].0
    ensures Elems(Next(g, Forward, g[k].1[i])) <= Elems(g[k].1[..i])
  {
    var deps := g[k].1;
    WellFormedClosed(g);
    DirectDependenciesOfKey(g, deps[i]);
    assert RowInOrder(g, i);
    forall d <- g[i].1 ensures d in Elems(deps[..i]) {
      var r := IndexOf(g, d);
      assert deps[..i][r] == d;
    }
  }

  /**
   * When the row at `k` lists every key above it, in table order, its key's build order
   * is exactly that list followed by the key.
   */
  lemma ListingAllEarlierKeys(g: Table, k: nat)
    requires WellFormed(g) && k < |g|
    requires |g[k].1| == k && forall i | 0 <= i < k :: g[k].1[i] == g[i].0
    ensures AllDependencies(g, g[k].0) == g[k].1 + [g[k].0]
  {
    var c, deps := g[k].0, g[k].1;
    assert Next(g, Forward, c) == deps by {
      DirectDependenciesOfKey(g, c);
    }
    var inner := Walk({} + {c}, []);
    assert VisitEach(g, Forward, c, inner, deps) == Walk(inner.visited + Elems(deps), deps) by {
      EarlierKeysReady(g, k);
      VisitEachReady(g, Forward, c, inner, deps);
      assert [] + deps == deps;
    }
  }

  /** The keys listed in row `k` are ready for the walk from that row's key. */
  lemma EarlierKeysReady(g: Table, k: nat)
    requires WellFormed(g) && k < |g|
    requires |g[k].1| == k && forall i | 0 <= i < k :: g[k].1[i] == g[i].0
    ensures Ready(g, Forward, {} + {g[k].0}, g[k].1) && Emitted(g, Forward, g[k].0, g[k].1)
  {
    var c, deps := g[k].0, g[k].1;
    WellFormedClosed(g);
    forall i | 0 <= i < k ensures Elems(Next(g, Forward, deps[i])) <= {} + {c} + Elems(deps[..i]) {
      EarlierKeysListed(g, k, i);
    }
    forall x <- deps ensures x in Universe(g, c) && x != c {
      var i :| 0 <= i < k && deps[i] == x;
      assert g[i].0 in KeySet(g);
    }
  }

  /**
   * The build order of the C client: aws-c-s3 lists every library above it in table
   * order, so the walk outputs exactly that list followed by aws-c-s3.
   */
  lemma AwsCS3BuildOrder()
    ensures AllDependencies(Registry, "aws-c-s3") ==
      ["aws-c-common", "aws-lc", "s2n", "aws-c-cal", "aws-c-io", "aws-checksums",
       "aws-c-compression", "aws-c-http", "aws-c-sdkutils", "aws-c-auth", "aws-c-s3"]
  {
    RegistryWellFormed();
    ListingAllEarlierKeys(Registry, 10);
  }
}
