/** The pinned manifest inside the source lock (`validate_lock` in system-package.py): its tree and its projects. */
module SourceLock {
  import opened Wrappers
  import opened Versions

  /** An XML element; absent attributes are None. */
  datatype Node = Node(tag: string, path: Option<string>, name: Option<string>, revision: Option<string>,
      children: seq<Node>)

  const PROJECT := "project"
  const MAX_DEPTH := 32

  // ---- The tree ---------------------------------------------------------

  /** The checks on a node at `depth` and on everything below it. */
  predicate TreeOk(n: Node, depth: nat)
    decreases n
  {
    depth < MAX_DEPTH && (n.tag == PROJECT ==> depth == 1) && AllOk(n.children, depth + 1)
  }

  predicate AllOk(ns: seq<Node>, depth: nat)
    decreases ns
  {
    if ns == [] then true else TreeOk(ns[|ns| - 1], depth) && AllOk(ns[..|ns| - 1], depth)
  }

  function Size(n: Node): nat
    decreases n
  {
    1 + Sizes(n.children)
  }

  function Sizes(ns: seq<Node>): nat
    decreases ns
  {
    if ns == [] then 0 else Size(ns[|ns| - 1]) + Sizes(ns[..|ns| - 1])
  }

  /** The worklist: nodes still to visit, with their depths. */
  type Work = seq<(Node, nat)>

  predicate WorkOk(work: Work) {
    if work == [] then true else TreeOk(work[|work| - 1].0, work[|work| - 1].1) && WorkOk(work[..|work| - 1])
  }

  function WorkSize(work: Work): nat {
    if work == [] then 0 else Size(work[|work| - 1].0) + WorkSize(work[..|work| - 1])
  }

  function AtDepth(ns: seq<Node>, depth: nat): (work: Work)
    ensures |work| == |ns|
  {
    if ns == [] then [] else AtDepth(ns[..|ns| - 1], depth) + [(ns[|ns| - 1], depth)]
  }

  /** Extending the worklist with a node's children. */
  lemma {:induction false} Extended(work: Work, ns: seq<Node>, depth: nat)
    ensures WorkOk(work + AtDepth(ns, depth)) <==> WorkOk(work) && AllOk(ns, depth)
    ensures WorkSize(work + AtDepth(ns, depth)) == WorkSize(work) + Sizes(ns)
    decreases |ns|
  {
    var more := work + AtDepth(ns, depth);
    if ns == [] {
      assert more == work;
    } else {
      Extended(work, ns[..|ns| - 1], depth);
      assert more[..|more| - 1] == work + AtDepth(ns[..|ns| - 1], depth);
      assert more[|more| - 1] == (ns[|ns| - 1], depth);
    }
  }

  /** The worklist loop visits the whole tree: it accepts exactly when every node passes its checks. */
  method CheckTree(root: Node) returns (ok: bool)
    ensures ok <==> TreeOk(root, 0)
  {
    var remaining: Work := [(root, 0)];
    assert remaining[..0] == [];
    while remaining != []
      invariant WorkOk(remaining) <==> TreeOk(root, 0)
      decreases WorkSize(remaining)
    {
      var (node, depth) := remaining[|remaining| - 1];
      remaining := remaining[..|remaining| - 1];
      if depth >= MAX_DEPTH || (node.tag == PROJECT && depth != 1) {
        return false;
      }
      Extended(remaining, node.children, depth + 1);
      remaining := remaining + AtDepth(node.children, depth + 1);
    }
    return true;
  }

  // ---- What the tree check means ----------------------------------------

  /** The node that child indices `at` lead to. */
  function Descendant(n: Node, at: seq<nat>): Option<Node>
    decreases |at|
  {
    if at == [] then Some(n)
    else if at[0] >= |n.children| then None
    else Descendant(n.children[at[0]], at[1..])
  }

  lemma {:induction false} AllOkEach(ns: seq<Node>, depth: nat)
    ensures AllOk(ns, depth) <==> forall k :: 0 <= k < |ns| ==> TreeOk(ns[k], depth)
    decreases |ns|
  {
    if ns != [] {
      AllOkEach(ns[..|ns| - 1], depth);
      assert forall k :: 0 <= k < |ns| - 1 ==> ns[..|ns| - 1][k] == ns[k];
    }
  }

  lemma {:induction false} OkDescends(n: Node, depth: nat, at: seq<nat>)
    requires TreeOk(n, depth) && Descendant(n, at).Some?
    ensures TreeOk(Descendant(n, at).value, depth + |at|)
    decreases |at|
  {
    if at != [] {
      AllOkEach(n.children, depth + 1);
      OkDescends(n.children[at[0]], depth + 1, at[1..]);
    }
  }

  /** A tree that fails has a place where a node fails. */
  lemma {:induction false} FailureHasPlace(n: Node, depth: nat) returns (at: seq<nat>)
    requires !TreeOk(n, depth)
    ensures Descendant(n, at).Some?
    ensures depth + |at| >= MAX_DEPTH || (Descendant(n, at).value.tag == PROJECT && depth + |at| != 1)
    decreases n
  {
    at := [];
    if depth < MAX_DEPTH && (n.tag == PROJECT ==> depth == 1) {
      AllOkEach(n.children, depth + 1);
      var k: nat :| k < |n.children| && !TreeOk(n.children[k], depth + 1);
      var below := FailureHasPlace(n.children[k], depth + 1);
      at := [k] + below;
      assert at[1..] == below;
    }
  }

  predicate Admissible(root: Node, at: seq<nat>) {
    Descendant(root, at).Some? ==> |at| < 32 && (Descendant(root, at).value.tag == "project" ==> |at| == 1)
  }

  /** Accepted means, at every place of the tree: less than 32 levels deep, and projects directly below the root. */
  lemma TreeOkMeans(root: Node)
    ensures TreeOk(root, 0) <==> forall at: seq<nat> :: Admissible(root, at)
  {
    if TreeOk(root, 0) {
      forall at: seq<nat> ensures Admissible(root, at) {
        if Descendant(root, at).Some? {
          OkDescends(root, 0, at);
        }
      }
    } else {
      var at := FailureHasPlace(root, 0);
      assert !Admissible(root, at);
    }
  }

  /** root.findall("project"). */
  function Projects(ns: seq<Node>): seq<Node> {
    if ns == [] then []
    else Projects(ns[..|ns| - 1]) + if ns[|ns| - 1].tag == PROJECT then [ns[|ns| - 1]] else []
  }

  /** Project elements anywhere in the tree. */
  function ProjectCount(n: Node): nat
    decreases n
  {
    (if n.tag == PROJECT then 1 else 0) + ProjectCounts(n.children)
  }

  function ProjectCounts(ns: seq<Node>): nat
    decreases ns
  {
    if ns == [] then 0 else ProjectCount(ns[|ns| - 1]) + ProjectCounts(ns[..|ns| - 1])
  }

  /** Below depth 1 there is no project. */
  lemma {:induction false} NoneDeeper(n: Node, depth: nat)
    requires TreeOk(n, depth) && depth > 0
    ensures ProjectCount(n) == if n.tag == PROJECT then 1 else 0
    decreases n, 1
  {
    NoneBelow(n.children, depth + 1);
  }

  lemma {:induction false} NoneBelow(ns: seq<Node>, depth: nat)
    requires AllOk(ns, depth) && depth > 1
    ensures ProjectCounts(ns) == 0
    decreases ns, 0
  {
    if ns != [] {
      NoneDeeper(ns[|ns| - 1], depth);
      NoneBelow(ns[..|ns| - 1], depth);
    }
  }

  lemma {:induction false} ChildrenCount(ns: seq<Node>)
    requires AllOk(ns, 1)
    ensures ProjectCounts(ns) == |Projects(ns)|
    decreases |ns|
  {
    if ns != [] {
      NoneDeeper(ns[|ns| - 1], 1);
      ChildrenCount(ns[..|ns| - 1]);
    }
  }

  /** No project hides in an accepted tree: all of them are among the ones counted and checked. */
  lemma NoHiddenProject(root: Node)
    requires TreeOk(root, 0)
    ensures ProjectCount(root) == |Projects(root.children)|
  {
    ChildrenCount(root.children);
  }

  // ---- The projects -----------------------------------------------------

  function PathOf(n: Node): string {
    if n.path.Some? then n.path.value else if n.name.Some? then n.name.value else ""
  }

  predicate Hex(c: char) { '0' <= c <= '9' || 'a' <= c <= 'f' }

  predicate FullCommit(s: string) { |s| == 40 && forall i :: 0 <= i < |s| ==> Hex(s[i]) }

  predicate PlainPart(part: string) { part != "" && part != "." && part != ".." }

  predicate SafePath(path: string) {
    && path != "" && !("/" <= path) && '\\' !in path && ':' !in path
    && forall i :: 0 <= i < |Split(path, '/')| ==> PlainPart(Split(path, '/')[i])
  }

  predicate Pinned(n: Node) { n.revision.Some? && FullCommit(n.revision.value) }

  /** The loop over the projects. */
  method CheckProjects(projects: seq<Node>) returns (ok: bool)
    ensures ok <==>
              && (forall i :: 0 <= i < |projects| ==> SafePath(PathOf(projects[i])) && Pinned(projects[i]))
              && (forall i, j :: 0 <= i < j < |projects| ==> PathOf(projects[i]) != PathOf(projects[j]))
  {
    var paths: set<string> := {};
    for k := 0 to |projects|
      invariant forall i :: 0 <= i < k ==> SafePath(PathOf(projects[i])) && Pinned(projects[i])
      invariant forall i, j :: 0 <= i < j < k ==> PathOf(projects[i]) != PathOf(projects[j])
      invariant forall p :: p in paths <==> exists i :: 0 <= i < k && PathOf(projects[i]) == p
    {
      var path := PathOf(projects[k]);
      if !SafePath(path) {
        return false;
      }
      if path in paths || !Pinned(projects[k]) {
        return false;
      }
      paths := paths + {path};
    }
    return true;
  }

  /** Walking `parts` from directory `base`, as a file system resolves them. */
  function Resolve(base: seq<string>, parts: seq<string>): seq<string>
    decreases |parts|
  {
    if parts == [] then base
    else if parts[0] == "" || parts[0] == "." then Resolve(base, parts[1..])
    else if parts[0] == ".." then Resolve(if base == [] then [] else base[..|base| - 1], parts[1..])
    else Resolve(base + [parts[0]], parts[1..])
  }

  lemma {:induction false} PlainPartsDescend(base: seq<string>, parts: seq<string>)
    requires forall i :: 0 <= i < |parts| ==> PlainPart(parts[i])
    ensures Resolve(base, parts) == base + parts
    decreases |parts|
  {
    if parts == [] {
      assert base + parts == base;
    } else {
      PlainPartsDescend(base + [parts[0]], parts[1..]);
      assert base + [parts[0]] + parts[1..] == base + parts;
    }
  }

  /** A safe path stays strictly inside the checkout, and different safe paths are different directories. */
  lemma SafePathsAreInside(base: seq<string>, p: string, q: string)
    requires SafePath(p) && SafePath(q)
    ensures base < Resolve(base, Split(p, '/'))
    ensures Resolve(base, Split(p, '/')) == Resolve(base, Split(q, '/')) ==> p == q
  {
    var ps, qs := Split(p, '/'), Split(q, '/');
    PlainPartsDescend(base, ps);
    PlainPartsDescend(base, qs);
    JoinOfSplit(p, '/');
    JoinOfSplit(q, '/');
    if base + ps == base + qs {
      assert ps == (base + ps)[|base|..] && qs == (base + qs)[|base|..];
    }
  }

  // ---- The whole check --------------------------------------------------

  predicate ValidManifest(root: Node, count: nat) {
    && root.tag == "manifest" && |Projects(root.children)| == count && TreeOk(root, 0)
    && (var ps := Projects(root.children);
        && (forall i :: 0 <= i < |ps| ==> SafePath(PathOf(ps[i])) && Pinned(ps[i]))
        && (forall i, j :: 0 <= i < j < |ps| ==> PathOf(ps[i]) != PathOf(ps[j])))
  }

  method ValidateManifest(root: Node, count: nat) returns (ok: bool)
    ensures ok <==> ValidManifest(root, count)
  {
    var projects := Projects(root.children);
    if root.tag != "manifest" || |projects| != count {
      return false;
    }
    ok := CheckTree(root);
    if ok {
      ok := CheckProjects(projects);
    }
  }

  // ---- What an accepted manifest is -------------------------------------

  /** The path a project is checked out to: its own attribute, or else its name. */
  predicate CheckedOutAt(n: Node, path: string) { n.path == Some(path) || (n.path.None? && n.name == Some(path)) }

  /** Forty characters of a full commit. */
  predicate Commit(s: string) { |s| == 40 && forall c :: c in s ==> c in "0123456789abcdef" }

  /** A path whose parts are ordinary names, on any system. */
  predicate Ordinary(path: string) {
    && '\\' !in path && ':' !in path
    && forall part :: part in Split(path, '/') ==> part !in ["", ".", ".."]
  }

  ghost predicate Proper(n: Node) {
    && (exists path :: CheckedOutAt(n, path) && Ordinary(path))
    && exists commit :: n.revision == Some(commit) && Commit(commit)
  }

  lemma HexIff(c: char)
    ensures Hex(c) <==> c in "0123456789abcdef"
  {
  }

  lemma CommitIff(s: string)
    ensures FullCommit(s) <==> Commit(s)
  {
    forall c ensures Hex(c) <==> c in "0123456789abcdef" {
      HexIff(c);
    }
    if Commit(s) {
      forall i | 0 <= i < |s| ensures Hex(s[i]) {
        assert s[i] in s;
      }
    }
  }

  lemma OrdinaryIff(path: string)
    ensures SafePath(path) <==> Ordinary(path)
  {
    var parts := Split(path, '/');
    if Ordinary(path) {
      forall i | 0 <= i < |parts| ensures PlainPart(parts[i]) {
        assert parts[i] in parts;
      }
      assert PlainPart(parts[0]);
    }
  }

  lemma ProperIff(n: Node)
    ensures Proper(n) <==> SafePath(PathOf(n)) && Pinned(n)
  {
    OrdinaryIff(PathOf(n));
    if n.revision.Some? {
      CommitIff(n.revision.value);
    }
    if SafePath(PathOf(n)) && Pinned(n) {
      assert CheckedOutAt(n, PathOf(n));
    }
  }

  /** `at` are the places of the project elements among `ns`, in order. */
  predicate ProjectPlaces(ns: seq<Node>, at: seq<nat>) {
    && (forall i :: 0 <= i < |at| ==> at[i] < |ns| && ns[at[i]].tag == "project")
    && (forall i, j :: 0 <= i < j < |at| ==> at[i] < at[j])
    && forall k :: 0 <= k < |ns| && ns[k].tag == "project" ==> k in at
  }

  lemma SamePlaces(ns: seq<Node>, at: seq<nat>)
    requires ns != [] && ns[|ns| - 1].tag != "project" && ProjectPlaces(ns[..|ns| - 1], at)
    ensures ProjectPlaces(ns, at)
  {
    var before := ns[..|ns| - 1];
    forall k | 0 <= k < |ns| && ns[k].tag == "project" ensures k in at {
      assert before[k] == ns[k];
    }
    forall i | 0 <= i < |at| ensures at[i] < |ns| && ns[at[i]].tag == "project" {
      assert before[at[i]] == ns[at[i]];
    }
  }

  lemma OneMorePlace(ns: seq<Node>, at: seq<nat>, more: seq<nat>)
    requires ns != [] && ns[|ns| - 1].tag == "project" && ProjectPlaces(ns[..|ns| - 1], at) && more == at + [|ns| - 1]
    ensures ProjectPlaces(ns, more)
  {
    var before := ns[..|ns| - 1];
    forall k | 0 <= k < |ns| && ns[k].tag == "project" ensures k in more {
      if k < |before| {
        assert before[k] == ns[k] && k in at;
      } else {
        assert more[|at|] == k;
      }
    }
    forall i | 0 <= i < |more| ensures more[i] < |ns| && ns[more[i]].tag == "project" {
      if i < |at| {
        assert before[at[i]] == ns[more[i]];
      }
    }
    forall i, j | 0 <= i < j < |more| ensures more[i] < more[j] {
      assert more[i] == at[i] < |before|;
    }
  }

  lemma {:induction false} ProjectsAre(ns: seq<Node>) returns (at: seq<nat>)
    ensures ProjectPlaces(ns, at) && |at| == |Projects(ns)|
    ensures forall i :: 0 <= i < |at| ==> Projects(ns)[i] == ns[at[i]]
    decreases |ns|
  {
    at := [];
    if ns != [] {
      var n := |ns| - 1;
      var before := ProjectsAre(ns[..n]);
      if ns[n].tag == PROJECT {
        at := before + [n];
        OneMorePlace(ns, before, at);
      } else {
        at := before;
        SamePlaces(ns, at);
      }
    }
  }

  /** Two projects are not checked out to the same path. */
  ghost predicate Apart(m: Node, n: Node) { !exists path :: CheckedOutAt(m, path) && CheckedOutAt(n, path) }

  lemma ApartIff(m: Node, n: Node)
    requires SafePath(PathOf(m)) && SafePath(PathOf(n))
    ensures Apart(m, n) <==> PathOf(m) != PathOf(n)
  {
    assert CheckedOutAt(m, PathOf(m)) && CheckedOutAt(n, PathOf(n));
  }

  /**
   * The manifest is accepted exactly when its tree is shallow and its projects are proper, apart, and as many as
   * the lock says.
   */
  lemma ManifestIff(root: Node, count: nat) returns (at: seq<nat>)
    ensures ProjectPlaces(root.children, at)
    ensures ValidManifest(root, count) <==>
              && root.tag == "manifest" && |at| == count && (forall place: seq<nat> :: Admissible(root, place))
              && (forall i :: 0 <= i < |at| ==> Proper(root.children[at[i]]))
              && forall i, j :: 0 <= i < j < |at| ==> Apart(root.children[at[i]], root.children[at[j]])
  {
    at := ProjectsAre(root.children);
    TreeOkMeans(root);
    var ps := Projects(root.children);
    forall i | 0 <= i < |ps| ensures Proper(ps[i]) <==> SafePath(PathOf(ps[i])) && Pinned(ps[i]) {
      ProperIff(ps[i]);
    }
    if forall i :: 0 <= i < |ps| ==> SafePath(PathOf(ps[i])) {
      forall i, j | 0 <= i < j < |ps| ensures Apart(ps[i], ps[j]) <==> PathOf(ps[i]) != PathOf(ps[j]) {
        ApartIff(ps[i], ps[j]);
      }
    }
  }
}
