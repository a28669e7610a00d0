/** The dependency-closure audit of `check-bus-boundaries.py`. */
module Audit {
  import opened Bytes

  // ----- Cargo metadata, as far as the audit looks at it

  datatype Package = Package(id: string, name: string, source: Option<string>, manifest: Option<string>)

  /** An entry of the package list; anything without a string id is passed over. */
  datatype PackageEntry = NoPackage | APackage(package: Package)

  datatype Kind = Shapeless | Normal | Build | Dev | Unknown

  /** A dependency edge; `None` marks a member that is missing or of the wrong type. */
  datatype Dependency = NotAnEdge | Edge(pkg: Option<string>, kinds: Option<seq<Kind>>)

  datatype NodeEntry = NoNode | ANode(id: string, deps: Option<seq<Dependency>>)

  datatype Metadata = Metadata(packages: Option<seq<PackageEntry>>, nodes: Option<seq<NodeEntry>>)

  datatype Violation =
    | MissingPackageList | MissingNodes | DuplicatePackages | DuplicateNodes | WrongRootCount | RootNotResolved
    | UnresolvedPackage(path: seq<string>)
    | Forbidden(path: seq<string>)
    | NoDependencyList(path: seq<string>)
    | MalformedEdge(path: seq<string>)
    | IncompleteEdge(path: seq<string>)
    | MalformedKind(path: seq<string>)
    | UnresolvedDependency(path: seq<string>)

  const ALLOWED := {
    "serde", "serde_core", "serde_derive", "serde_json", "thiserror", "thiserror-impl", "proc-macro2",
    "quote", "syn", "unicode-ident", "itoa", "memchr", "zmij" }
  const REGISTRY := "registry+https://github.com/rust-lang/crates.io-index"
  const STORAGE_BUS := "tinystoragedrivers-bus"
  const STORAGE_BUS_SOURCE :=
    "git+https://github.com/tinyhumansai/tinystoragedrivers" +
    "?rev=a04e3a174fa8f28d5229a816ca6b39c72a9efd7b#a04e3a174fa8f28d5229a816ca6b39c72a9efd7b"

  predicate Permitted(package: Package, walletManifest: Option<string>) {
    || (package.name == STORAGE_BUS && package.source == Some(STORAGE_BUS_SOURCE))
    || (package.name == "tinywallet-bus" && package.source.None?
        && walletManifest.Some? && package.manifest == walletManifest)
    || (package.name in ALLOWED && package.source == Some(REGISTRY))
  }

  /** The names the bus must never link, with `_` read as `-`. */
  predicate Banned(name: string) {
    var normal := seq(|name|, i requires 0 <= i < |name| => if name[i] == '_' then '-' else name[i]);
    normal == "bitcoin" || normal == "k256" || "coins-" <= normal
  }

  /** Only three kinds of package get in, and no banned name is among them. */
  lemma PermittedOnly(package: Package, walletManifest: Option<string>)
    requires Permitted(package, walletManifest)
    ensures !Banned(package.name)
    ensures match package.source
            case None => package.name == "tinywallet-bus" && package.manifest == walletManifest != None
            case Some(source) =>
              || (package.name == "tinystoragedrivers-bus" && source == STORAGE_BUS_SOURCE)
              || (package.name in ALLOWED && source == "registry+https://github.com/rust-lang/crates.io-index")
  {
    BannedInitial(package.name);
    AllowedInitial(package.name);
  }

  lemma BannedInitial(name: string)
    ensures Banned(name) ==> name != "" && name[0] in "bkc"
  {
    if Banned(name) {
      var normal := seq(|name|, i requires 0 <= i < |name| => if name[i] == '_' then '-' else name[i]);
      assert |normal| == |name|;
      assert "bitcoin"[0] == 'b' && "k256"[0] == 'k' && "coins-"[0] == 'c';
      assert normal[0] == 'b' || normal[0] == 'k' || normal[0] == 'c';
    }
  }

  lemma AllowedInitial(name: string)
    ensures name in ALLOWED || name == STORAGE_BUS || name == "tinywallet-bus" ==> name != "" && name[0] in "stpquimz"
  {
  }

  /** From the registry, exactly these names get in. */
  lemma RegistryPermits(id: string, name: string, manifest: Option<string>, walletManifest: Option<string>)
    ensures Permitted(Package(id, name, Some("registry+https://github.com/rust-lang/crates.io-index"), manifest), walletManifest)
            <==> name in ["serde", "serde_core", "serde_derive", "serde_json", "thiserror", "thiserror-impl", "proc-macro2",
                          "quote", "syn", "unicode-ident", "itoa", "memchr", "zmij"]
  {
    assert |REGISTRY| != |STORAGE_BUS_SOURCE|;
  }

  function PackagesOf(entries: seq<PackageEntry>): (ps: seq<Package>) {
    if entries == [] then []
    else (if entries[0].APackage? then [entries[0].package] else []) + PackagesOf(entries[1..])
  }

  function NodesOf(entries: seq<NodeEntry>): (ns: seq<NodeEntry>)
    ensures forall i :: 0 <= i < |ns| ==> ns[i].ANode?
  {
    if entries == [] then []
    else (if entries[0].ANode? then [entries[0]] else []) + NodesOf(entries[1..])
  }

  predicate DistinctIds(ids: seq<string>) {
    forall i, j :: 0 <= i < j < |ids| ==> ids[i] != ids[j]
  }

  function PackageIds(ps: seq<Package>): (ids: seq<string>)
    ensures |ids| == |ps| && forall i :: 0 <= i < |ps| ==> ids[i] == ps[i].id
  {
    seq(|ps|, i requires 0 <= i < |ps| => ps[i].id)
  }

  function NodeIds(ns: seq<NodeEntry>): (ids: seq<string>)
    requires forall i :: 0 <= i < |ns| ==> ns[i].ANode?
    ensures |ids| == |ns| && forall i :: 0 <= i < |ns| ==> ids[i] == ns[i].id
  {
    seq(|ns|, i requires 0 <= i < |ns| => ns[i].id)
  }

  function Roots(ps: seq<Package>, rootName: string): seq<string> {
    if ps == [] then []
    else (if ps[0].name == rootName then [ps[0].id] else []) + Roots(ps[1..], rootName)
  }

  function PackageMap(ps: seq<Package>): map<string, Package> {
    if ps == [] then map[] else PackageMap(ps[..|ps| - 1])[ps[|ps| - 1].id := ps[|ps| - 1]]
  }

  function NodeMap(ns: seq<NodeEntry>): map<string, Option<seq<Dependency>>>
    requires forall i :: 0 <= i < |ns| ==> ns[i].ANode?
  {
    if ns == [] then map[] else NodeMap(ns[..|ns| - 1])[ns[|ns| - 1].id := ns[|ns| - 1].deps]
  }

  // ----- the graph and what a clean closure is

  datatype Graph = Graph(
    packages: map<string, Package>, nodes: map<string, Option<seq<Dependency>>>,
    root: string, rootName: string, walletManifest: Option<string>)

  predicate WellFormedKinds(kinds: seq<Kind>) {
    forall i :: 0 <= i < |kinds| ==> kinds[i] != Shapeless && kinds[i] != Unknown
  }

  predicate Relevant(kinds: seq<Kind>) {
    exists i :: 0 <= i < |kinds| && (kinds[i] == Normal || kinds[i] == Build)
  }

  predicate Resolved(g: Graph, id: string) { id in g.packages && id in g.nodes }

  /** A dependency that raises no complaint. */
  predicate Sound(g: Graph, d: Dependency) {
    && d.Edge? && d.pkg.Some? && d.kinds.Some? && WellFormedKinds(d.kinds.value)
    && (Relevant(d.kinds.value) ==> Resolved(g, d.pkg.value))
  }

  /** A dependency the closure follows. */
  predicate Follows(g: Graph, d: Dependency) {
    Sound(g, d) && Relevant(d.kinds.value)
  }

  /** `b` is a normal or build dependency of `a`. */
  ghost predicate Depends(g: Graph, a: string, b: string) {
    && a in g.nodes && g.nodes[a].Some?
    && exists i :: 0 <= i < |g.nodes[a].value| && Follows(g, g.nodes[a].value[i]) && g.nodes[a].value[i].pkg.value == b
  }

  ghost predicate IsWalk(g: Graph, walk: seq<string>) {
    && walk != [] && walk[0] == g.root
    && forall i :: 0 <= i < |walk| - 1 ==> Depends(g, walk[i], walk[i + 1])
  }

  ghost predicate Reaches(g: Graph, walk: seq<string>, id: string) {
    IsWalk(g, walk) && walk[|walk| - 1] == id
  }

  /** `id` is in the normal/build closure of the root. */
  ghost predicate Reachable(g: Graph, id: string) {
    exists walk :: Reaches(g, walk, id)
  }

  /** The names a walk passes through, as the audit prints them. */
  function Names(g: Graph, walk: seq<string>): (names: seq<string>)
    ensures |names| == |walk|
  {
    seq(|walk|, i requires 0 <= i < |walk| =>
      if i == 0 then g.rootName else if walk[i] in g.packages then g.packages[walk[i]].name else walk[i])
  }

  /** `path` names a dependency chain from the root to `id`. */
  ghost predicate Chain(g: Graph, id: string, path: seq<string>) {
    exists walk :: Reaches(g, walk, id) && Names(g, walk) == path
  }

  function NameOf(g: Graph, id: string): string { if id in g.packages then g.packages[id].name else id }

  /** `v` is the complaint about a dependency found at `path`; a sound one draws none. */
  ghost predicate Blames(g: Graph, path: seq<string>, d: Dependency, v: Violation) {
    if d.NotAnEdge? then v == MalformedEdge(path)
    else if d.pkg.None? || d.kinds.None? then v == IncompleteEdge(path)
    else if !WellFormedKinds(d.kinds.value) then v == MalformedKind(path)
    else && Relevant(d.kinds.value) && !Resolved(g, d.pkg.value)
         && v == UnresolvedDependency(path + [NameOf(g, d.pkg.value)])
  }

  ghost predicate BlamesSome(g: Graph, path: seq<string>, deps: seq<Dependency>, v: Violation) {
    exists i :: 0 <= i < |deps| && Blames(g, path, deps[i], v)
  }

  ghost predicate IsBlamed(g: Graph, path: seq<string>, d: Dependency, violations: seq<Violation>) {
    exists i :: 0 <= i < |violations| && Blames(g, path, d, violations[i])
  }

  predicate Unwanted(g: Graph, id: string) {
    id in g.packages && id != g.root && !Permitted(g.packages[id], g.walletManifest)
  }

  /** `v` is something wrong with the package at the end of `path`. */
  ghost predicate Accuses(g: Graph, id: string, path: seq<string>, v: Violation) {
    || (v == UnresolvedPackage(path) && id !in g.packages)
    || (v == Forbidden(path) && Unwanted(g, id))
    || (id in g.packages && id in g.nodes &&
        if g.nodes[id].None? then v == NoDependencyList(path) else BlamesSome(g, path, g.nodes[id].value, v))
  }

  /** A violation names a real chain, and what is wrong at the end of it. */
  ghost predicate Justified(g: Graph, v: Violation) {
    exists id, path :: Chain(g, id, path) && Accuses(g, id, path, v)
  }

  /** Everything wrong with a package is among the violations, under one chain to it. */
  ghost predicate ReportedAt(g: Graph, id: string, path: seq<string>, violations: seq<Violation>) {
    && Chain(g, id, path)
    && (id !in g.packages ==> UnresolvedPackage(path) in violations)
    && (Unwanted(g, id) ==> Forbidden(path) in violations)
    && (id in g.packages && id in g.nodes && g.nodes[id].None? ==> NoDependencyList(path) in violations)
    && (id in g.packages && id in g.nodes && g.nodes[id].Some? ==>
          forall k :: 0 <= k < |g.nodes[id].value| && !Sound(g, g.nodes[id].value[k]) ==>
                        IsBlamed(g, path, g.nodes[id].value[k], violations))
  }

  ghost predicate Reported(g: Graph, id: string, violations: seq<Violation>) {
    exists path :: ReportedAt(g, id, path, violations)
  }

  lemma ReportsStay(g: Graph, seen: set<string>, a: seq<Violation>, b: seq<Violation>)
    requires forall id :: id in seen ==> Reported(g, id, a)
    ensures forall id :: id in seen ==> Reported(g, id, a + b)
  {
    hide Chain, Sound, Blames;
    forall id | id in seen ensures Reported(g, id, a + b) {
      var path :| ReportedAt(g, id, path, a);
      forall d | IsBlamed(g, path, d, a) ensures IsBlamed(g, path, d, a + b) { BlameStays(g, path, d, a, b); }
      assert ReportedAt(g, id, path, a + b);
    }
  }

  lemma BlameStays(g: Graph, path: seq<string>, d: Dependency, a: seq<Violation>, b: seq<Violation>)
    ensures IsBlamed(g, path, d, a) || IsBlamed(g, path, d, b) ==> IsBlamed(g, path, d, a + b)
  {
    hide Blames;
    if IsBlamed(g, path, d, a) {
      var i :| 0 <= i < |a| && Blames(g, path, d, a[i]);
      assert (a + b)[i] == a[i];
    } else if IsBlamed(g, path, d, b) {
      var i :| 0 <= i < |b| && Blames(g, path, d, b[i]);
      assert (a + b)[|a| + i] == b[i];
    }
  }

  /** The package may be in the closure, and its dependency data is complete. */
  ghost predicate Clean(g: Graph, id: string) {
    && id in g.packages && (id != g.root ==> Permitted(g.packages[id], g.walletManifest))
    && id in g.nodes && g.nodes[id].Some?
    && forall i :: 0 <= i < |g.nodes[id].value| ==> Sound(g, g.nodes[id].value[i])
  }

  ghost predicate CleanClosure(g: Graph) {
    forall id :: Reachable(g, id) ==> Clean(g, id)
  }

  lemma ChainStep(g: Graph, a: string, b: string, path: seq<string>)
    requires Chain(g, a, path) && Depends(g, a, b) && b in g.packages
    ensures Chain(g, b, path + [g.packages[b].name])
  {
    hide Depends;
    var walk :| Reaches(g, walk, a) && Names(g, walk) == path;
    var longer := walk + [b];
    forall i | 0 <= i < |longer| - 1 ensures Depends(g, longer[i], longer[i + 1]) {}
    assert Reaches(g, longer, b);
    assert Names(g, longer) == path + [g.packages[b].name];
  }

  /** A set that holds the root and is closed under dependencies holds the closure. */
  lemma {:induction false} ClosedSetHoldsClosure(g: Graph, seen: set<string>, walk: seq<string>)
    requires IsWalk(g, walk) && g.root in seen
    requires forall a, b :: a in seen && Depends(g, a, b) ==> b in seen
    ensures walk[|walk| - 1] in seen
  {
    hide Depends;
    if |walk| > 1 {
      var init := walk[..|walk| - 1];
      ClosedSetHoldsClosure(g, seen, init);
      assert Depends(g, walk[|walk| - 2], walk[|walk| - 1]);
    }
  }

  // ----- the audit

  datatype Entry = Entry(id: string, path: seq<string>)

  ghost predicate Queued(queue: seq<Entry>, id: string) {
    exists i :: 0 <= i < |queue| && queue[i].id == id
  }

  method ClassifyKinds(kinds: seq<Kind>) returns (relevant: bool, malformed: bool)
    ensures malformed <==> !WellFormedKinds(kinds)
    ensures !malformed ==> (relevant <==> Relevant(kinds))
  {
    relevant, malformed := false, false;
    for i := 0 to |kinds|
      invariant !malformed && WellFormedKinds(kinds[..i])
      invariant relevant <==> Relevant(kinds[..i])
    {
      assert kinds[..i + 1] == kinds[..i] + [kinds[i]];
      if kinds[i] == Shapeless {
        malformed := true;
        return;
      }
      if kinds[i] == Normal || kinds[i] == Build {
        relevant := true;
        assert kinds[..i + 1][i] == kinds[i];
      } else if kinds[i] != Dev {
        malformed := true;
        return;
      } else if Relevant(kinds[..i + 1]) {
        var j :| 0 <= j < i + 1 && (kinds[..i + 1][j] == Normal || kinds[..i + 1][j] == Build);
        assert kinds[..i][j] == kinds[j];
      }
    }
    assert kinds[..|kinds|] == kinds;
  }

  /** The entry is a dependency to follow, at the path extended by its name. */
  ghost predicate LeadsTo(g: Graph, path: seq<string>, deps: seq<Dependency>, e: Entry) {
    && Resolved(g, e.id) && e.path == path + [g.packages[e.id].name]
    && exists i :: 0 <= i < |deps| && Follows(g, deps[i]) && deps[i].pkg.value == e.id
  }

  /** The inner loop: complain about bad edges, queue the ones to follow. */
  method ScanDependencies(g: Graph, path: seq<string>, deps: seq<Dependency>, queue: seq<Entry>)
    returns (violations: seq<Violation>, queue': seq<Entry>)
    ensures violations == [] <==> forall i :: 0 <= i < |deps| ==> Sound(g, deps[i])
    ensures forall i :: 0 <= i < |violations| ==> BlamesSome(g, path, deps, violations[i])
    ensures forall i :: 0 <= i < |deps| && !Sound(g, deps[i]) ==> IsBlamed(g, path, deps[i], violations)
    ensures |queue| <= |queue'| && queue'[..|queue|] == queue
    ensures forall k :: |queue| <= k < |queue'| ==> LeadsTo(g, path, deps, queue'[k])
    ensures forall i :: 0 <= i < |deps| && Follows(g, deps[i]) ==> Queued(queue', deps[i].pkg.value)
  {
    hide Scanned, Enqueued, LeadsTo, Queued, BlamesSome, IsBlamed;
    violations, queue' := [], queue;
    ScanStarts(g, path, deps, queue);
    for n := 0 to |deps|
      invariant Scanned(g, path, deps, n, violations) && Enqueued(g, path, deps, n, queue, queue')
    {
      var d := deps[n];
      if d.NotAnEdge? {
        Complain(g, path, deps, n, violations, MalformedEdge(path), queue, queue');
        violations := violations + [MalformedEdge(path)];
        continue;
      }
      if d.pkg.None? || d.kinds.None? {
        Complain(g, path, deps, n, violations, IncompleteEdge(path), queue, queue');
        violations := violations + [IncompleteEdge(path)];
        continue;
      }
      var child := d.pkg.value;
      var relevant, malformed := ClassifyKinds(d.kinds.value);
      if malformed {
        Complain(g, path, deps, n, violations, MalformedKind(path), queue, queue');
        violations := violations + [MalformedKind(path)];
        continue;
      }
      if !relevant {
        PassOver(g, path, deps, n, violations, queue, queue');
        continue;
      }
      if child !in g.packages || child !in g.nodes {
        var name := if child in g.packages then g.packages[child].name else child;
        Complain(g, path, deps, n, violations, UnresolvedDependency(path + [name]), queue, queue');
        violations := violations + [UnresolvedDependency(path + [name])];
        continue;
      }
      FollowEdge(g, path, deps, n, violations, queue, queue');
      queue' := queue' + [Entry(child, path + [g.packages[child].name])];
    }
    ScanEnds(g, path, deps, violations, queue, queue');
  }

  /** The first `n` dependencies have drawn exactly their complaints. */
  ghost predicate Scanned(g: Graph, path: seq<string>, deps: seq<Dependency>, n: nat, violations: seq<Violation>)
    requires n <= |deps|
  {
    && (violations == [] <==> forall i :: 0 <= i < n ==> Sound(g, deps[i]))
    && (forall i :: 0 <= i < |violations| ==> BlamesSome(g, path, deps, violations[i]))
    && (forall i :: 0 <= i < n && !Sound(g, deps[i]) ==> IsBlamed(g, path, deps[i], violations))
  }

  /** And those of them to follow are behind what was queued before. */
  ghost predicate Enqueued(g: Graph, path: seq<string>, deps: seq<Dependency>, n: nat, queue: seq<Entry>, queue': seq<Entry>)
    requires n <= |deps|
  {
    && |queue| <= |queue'| && queue'[..|queue|] == queue
    && (forall k :: |queue| <= k < |queue'| ==> LeadsTo(g, path, deps, queue'[k]))
    && (forall i :: 0 <= i < n && Follows(g, deps[i]) ==> Queued(queue', deps[i].pkg.value))
  }

  lemma ScanStarts(g: Graph, path: seq<string>, deps: seq<Dependency>, queue: seq<Entry>)
    ensures Scanned(g, path, deps, 0, []) && Enqueued(g, path, deps, 0, queue, queue)
  {
  }

  lemma ScanEnds(
    g: Graph, path: seq<string>, deps: seq<Dependency>, violations: seq<Violation>, queue: seq<Entry>, queue': seq<Entry>
  )
    requires Scanned(g, path, deps, |deps|, violations) && Enqueued(g, path, deps, |deps|, queue, queue')
    ensures violations == [] <==> forall i :: 0 <= i < |deps| ==> Sound(g, deps[i])
    ensures forall i :: 0 <= i < |violations| ==> BlamesSome(g, path, deps, violations[i])
    ensures forall i :: 0 <= i < |deps| && !Sound(g, deps[i]) ==> IsBlamed(g, path, deps[i], violations)
    ensures |queue| <= |queue'| && queue'[..|queue|] == queue
    ensures forall k :: |queue| <= k < |queue'| ==> LeadsTo(g, path, deps, queue'[k])
    ensures forall i :: 0 <= i < |deps| && Follows(g, deps[i]) ==> Queued(queue', deps[i].pkg.value)
  {
    hide Sound, LeadsTo, Queued, BlamesSome, IsBlamed;
  }

  lemma PassOver(
    g: Graph, path: seq<string>, deps: seq<Dependency>, n: nat, violations: seq<Violation>,
    queue: seq<Entry>, queue': seq<Entry>
  )
    requires n < |deps| && Scanned(g, path, deps, n, violations) && Enqueued(g, path, deps, n, queue, queue')
    requires Sound(g, deps[n]) && !Follows(g, deps[n])
    ensures Scanned(g, path, deps, n + 1, violations) && Enqueued(g, path, deps, n + 1, queue, queue')
  {
    hide Sound, LeadsTo, Queued, BlamesSome, IsBlamed;
  }

  lemma Complain(
    g: Graph, path: seq<string>, deps: seq<Dependency>, n: nat, violations: seq<Violation>, v: Violation,
    queue: seq<Entry>, queue': seq<Entry>
  )
    requires n < |deps| && Scanned(g, path, deps, n, violations) && Enqueued(g, path, deps, n, queue, queue')
    requires Blames(g, path, deps[n], v)
    ensures Scanned(g, path, deps, n + 1, violations + [v]) && Enqueued(g, path, deps, n + 1, queue, queue')
  {
    BlameNotSound(g, path, deps[n], v);
    hide Blames, Sound, IsBlamed, BlamesSome, LeadsTo, Queued;
    BlamesAt(g, path, deps, n, v);
    IsBlamedBy(g, path, deps[n], v);
    var all := violations + [v];
    assert Scanned(g, path, deps, n + 1, all) by {
      forall i | 0 <= i < |all| ensures BlamesSome(g, path, deps, all[i]) {
        if i < |violations| { assert all[i] == violations[i]; }
      }
      forall i | 0 <= i < n + 1 && !Sound(g, deps[i]) ensures IsBlamed(g, path, deps[i], all) {
        BlameStays(g, path, deps[i], violations, [v]);
      }
    }
    UnsoundIsNotFollowed(g, path, deps, n, queue, queue');
  }

  lemma BlamesAt(g: Graph, path: seq<string>, deps: seq<Dependency>, n: nat, v: Violation)
    requires n < |deps| && Blames(g, path, deps[n], v)
    ensures BlamesSome(g, path, deps, v)
  {
    hide Blames;
  }

  lemma UnsoundIsNotFollowed(
    g: Graph, path: seq<string>, deps: seq<Dependency>, n: nat, queue: seq<Entry>, queue': seq<Entry>
  )
    requires n < |deps| && Enqueued(g, path, deps, n, queue, queue') && !Sound(g, deps[n])
    ensures Enqueued(g, path, deps, n + 1, queue, queue')
  {
    hide Sound, LeadsTo, Queued;
  }

  lemma IsBlamedBy(g: Graph, path: seq<string>, d: Dependency, v: Violation)
    requires Blames(g, path, d, v)
    ensures IsBlamed(g, path, d, [v])
  {
    hide Blames;
    assert [v][0] == v;
  }

  lemma FollowEdge(
    g: Graph, path: seq<string>, deps: seq<Dependency>, n: nat, violations: seq<Violation>,
    queue: seq<Entry>, queue': seq<Entry>
  )
    requires n < |deps| && Scanned(g, path, deps, n, violations) && Enqueued(g, path, deps, n, queue, queue')
    requires Follows(g, deps[n])
    ensures var e := Entry(deps[n].pkg.value, path + [g.packages[deps[n].pkg.value].name]);
            Scanned(g, path, deps, n + 1, violations) && Enqueued(g, path, deps, n + 1, queue, queue' + [e])
  {
    var e := Entry(deps[n].pkg.value, path + [g.packages[deps[n].pkg.value].name]);
    assert LeadsTo(g, path, deps, e);
    hide Sound, LeadsTo, Queued, BlamesSome, IsBlamed;
    QueueGrows(queue', e);
    var longer := queue' + [e];
    assert longer[..|queue|] == queue'[..|queue|];
    forall k | |queue| <= k < |longer| ensures LeadsTo(g, path, deps, longer[k]) {
      if k < |queue'| { assert longer[k] == queue'[k]; }
    }
  }

  lemma BlameNotSound(g: Graph, path: seq<string>, d: Dependency, v: Violation)
    requires Blames(g, path, d, v)
    ensures !Sound(g, d)
  {
  }

  lemma QueueGrows(queue: seq<Entry>, e: Entry)
    ensures Queued(queue + [e], e.id)
    ensures forall id :: Queued(queue, id) ==> Queued(queue + [e], id)
  {
    assert (queue + [e])[|queue|] == e;
    forall id | Queued(queue, id) ensures Queued(queue + [e], id) {
      var i :| 0 <= i < |queue| && queue[i].id == id;
      assert (queue + [e])[i] == queue[i];
    }
  }

  /** Everything seen or waiting is in the closure, and nothing reached is forgotten. */
  ghost predicate Explored(g: Graph, seen: set<string>, queue: seq<Entry>) {
    && (forall id :: id in seen ==> id in g.nodes && Reachable(g, id))
    && (forall k :: 0 <= k < |queue| ==> queue[k].id in g.nodes && Chain(g, queue[k].id, queue[k].path))
    && (forall a, b :: a in seen && a in g.packages && Depends(g, a, b) ==> b in seen || Queued(queue, b))
    && (seen == {} ==> |queue| == 1 && queue[0].id == g.root && |queue[0].path| == 1)
    && (seen != {} ==> g.root in seen && forall k :: 0 <= k < |queue| ==> |queue[k].path| > 1)
  }

  ghost predicate AllClean(g: Graph, seen: set<string>) {
    forall id <- seen :: Clean(g, id)
  }

  /** Search the closure of a graph whose root is resolved. */
  method Search(g: Graph) returns (violations: seq<Violation>)
    requires g.root in g.nodes
    ensures violations == [] <==> CleanClosure(g)
    ensures forall i :: 0 <= i < |violations| ==> Justified(g, violations[i])
    ensures g.root in g.packages ==> forall id :: Reachable(g, id) ==> Reported(g, id, violations)
  {
    hide Depends, Clean, Reachable, Chain, Permitted, Queued, Reported, Justified, BlamesSome, IsBlamed;
    hide Explored, ReportedAt, Accuses, Sound, LeadsTo, CleanClosure;
    var queue := [Entry(g.root, [g.rootName])];
    var seen: set<string> := {};
    violations := [];
    RootIsReachable(g);
    while queue != []
      invariant Explored(g, seen, queue)
      invariant violations == [] <==> AllClean(g, seen)
      invariant forall i :: 0 <= i < |violations| ==> Justified(g, violations[i])
      invariant forall id :: id in seen ==> Reported(g, id, violations)
      decreases g.nodes.Keys - seen, |queue|
    {
      var entry := queue[|queue| - 1];
      var rest := queue[..|queue| - 1];
      var identity, path := entry.id, entry.path;
      if identity in seen {
        PopSeen(g, seen, queue);
        queue := rest;
        continue;
      }
      ghost var before := seen;
      RootFirst(g, seen, queue);
      seen := seen + {identity};
      ghost var reported := violations;
      if identity !in g.packages {
        violations := violations + [UnresolvedPackage(path)];
        LeafReports(g, identity, path);
        Report(g, before, identity, path, reported, [UnresolvedPackage(path)]);
        NotClean(g, identity);
        VisitLeaf(g, before, queue);
        queue := rest;
        continue;
      }
      ghost var permitted := identity == g.root || Permitted(g.packages[identity], g.walletManifest);
      if |path| > 1 {
        if !Permitted(g.packages[identity], g.walletManifest) {
          violations := violations + [Forbidden(path)];
        }
      }
      ghost var verdict: seq<Violation> := if Unwanted(g, identity) then [Forbidden(path)] else [];
      assert violations == reported + verdict;
      var dependencies := g.nodes[identity];
      if dependencies.None? {
        violations := violations + [NoDependencyList(path)];
        EmptyReports(g, identity, path, verdict);
        assert violations == reported + (verdict + [NoDependencyList(path)]);
        Report(g, before, identity, path, reported, verdict + [NoDependencyList(path)]);
        NotClean(g, identity);
        VisitLeaf(g, before, queue);
        queue := rest;
        continue;
      }
      var complaints, queue' := ScanDependencies(g, path, dependencies.value, rest);
      violations := violations + complaints;
      ScanReports(g, identity, path, verdict, complaints);
      assert violations == reported + (verdict + complaints);
      Report(g, before, identity, path, reported, verdict + complaints);
      CleanIff(g, identity, permitted);
      VisitNode(g, before, queue, dependencies.value, queue');
      queue := queue';
    }
    EverythingSeen(g, seen);
  }

  lemma LeafReports(g: Graph, id: string, path: seq<string>)
    requires Chain(g, id, path) && id !in g.packages
    ensures ReportedAt(g, id, path, [UnresolvedPackage(path)]) && Accuses(g, id, path, UnresolvedPackage(path))
  {
    hide Chain;
  }

  lemma EmptyReports(g: Graph, id: string, path: seq<string>, verdict: seq<Violation>)
    requires Chain(g, id, path) && id in g.packages && id in g.nodes && g.nodes[id].None?
    requires verdict == if Unwanted(g, id) then [Forbidden(path)] else []
    ensures var all := verdict + [NoDependencyList(path)];
            ReportedAt(g, id, path, all) && forall i :: 0 <= i < |all| ==> Accuses(g, id, path, all[i])
  {
    hide Chain, Permitted, Unwanted;
    var all := verdict + [NoDependencyList(path)];
    if Unwanted(g, id) { assert all[0] == Forbidden(path); }
    assert all[|verdict|] == NoDependencyList(path);
  }

  lemma ScanReports(g: Graph, id: string, path: seq<string>, verdict: seq<Violation>, complaints: seq<Violation>)
    requires Chain(g, id, path) && id in g.packages && id in g.nodes && g.nodes[id].Some?
    requires verdict == if Unwanted(g, id) then [Forbidden(path)] else []
    requires forall i :: 0 <= i < |complaints| ==> BlamesSome(g, path, g.nodes[id].value, complaints[i])
    requires forall k :: 0 <= k < |g.nodes[id].value| && !Sound(g, g.nodes[id].value[k]) ==>
                           IsBlamed(g, path, g.nodes[id].value[k], complaints)
    ensures var all := verdict + complaints;
            ReportedAt(g, id, path, all) && forall i :: 0 <= i < |all| ==> Accuses(g, id, path, all[i])
  {
    hide Chain, Permitted, Unwanted, Sound, IsBlamed, BlamesSome;
    var all, deps := verdict + complaints, g.nodes[id].value;
    forall k | 0 <= k < |deps| && !Sound(g, deps[k]) ensures IsBlamed(g, path, deps[k], all) {
      BlameStays(g, path, deps[k], verdict, complaints);
    }
    if Unwanted(g, id) { assert all[0] == Forbidden(path); }
    forall i | |verdict| <= i < |all| ensures BlamesSome(g, path, deps, all[i]) { assert all[i] == complaints[i - |verdict|]; }
  }

  /** One visit adds what is wrong with its package, and only that. */
  lemma Report(g: Graph, seen: set<string>, id: string, path: seq<string>, was: seq<Violation>, more: seq<Violation>)
    requires forall i :: 0 <= i < |was| ==> Justified(g, was[i])
    requires forall id :: id in seen ==> Reported(g, id, was)
    requires forall i :: 0 <= i < |more| ==> Accuses(g, id, path, more[i])
    requires ReportedAt(g, id, path, more)
    ensures forall i :: 0 <= i < |was + more| ==> Justified(g, (was + more)[i])
    ensures forall other :: other in seen + {id} ==> Reported(g, other, was + more)
  {
    ReportsStay(g, seen, was, more);
    hide Accuses, Reported;
    forall i | |was| <= i < |was + more| ensures Justified(g, (was + more)[i]) {
      assert Accuses(g, id, path, more[i - |was|]);
    }
    ReportExtends(g, id, path, was, more);
  }

  lemma ReportExtends(g: Graph, id: string, path: seq<string>, was: seq<Violation>, more: seq<Violation>)
    requires ReportedAt(g, id, path, more)
    ensures Reported(g, id, was + more)
  {
    hide Chain, Sound, IsBlamed;
    forall d | IsBlamed(g, path, d, more) ensures IsBlamed(g, path, d, was + more) { BlameStays(g, path, d, was, more); }
    assert ReportedAt(g, id, path, was + more);
  }

  lemma RootIsReachable(g: Graph)
    requires g.root in g.nodes
    ensures Explored(g, {}, [Entry(g.root, [g.rootName])])
  {
    assert Reaches(g, [g.root], g.root);
    assert Names(g, [g.root]) == [g.rootName];
  }

  /** The root is visited first, and only the root has a path of length one. */
  lemma RootFirst(g: Graph, seen: set<string>, queue: seq<Entry>)
    requires Explored(g, seen, queue) && queue != []
    requires queue[|queue| - 1].id !in seen
    ensures queue[|queue| - 1].id in g.nodes && |queue[|queue| - 1].path| >= 1
    ensures |queue[|queue| - 1].path| > 1 <==> queue[|queue| - 1].id != g.root
    ensures Chain(g, queue[|queue| - 1].id, queue[|queue| - 1].path) && Reachable(g, queue[|queue| - 1].id)
  {
    assert Chain(g, queue[|queue| - 1].id, queue[|queue| - 1].path);
    hide Depends, Queued;
  }

  lemma NotClean(g: Graph, id: string)
    ensures id !in g.packages || id !in g.nodes || g.nodes[id].None? ==> !Clean(g, id)
  {
  }

  lemma CleanIff(g: Graph, id: string, permitted: bool)
    requires id in g.packages && id in g.nodes && g.nodes[id].Some?
    requires permitted <==> id == g.root || Permitted(g.packages[id], g.walletManifest)
    ensures Clean(g, id) <==> permitted && forall i :: 0 <= i < |g.nodes[id].value| ==> Sound(g, g.nodes[id].value[i])
  {
    hide Permitted, Sound;
  }

  lemma PopSeen(g: Graph, seen: set<string>, queue: seq<Entry>)
    requires Explored(g, seen, queue) && queue != [] && queue[|queue| - 1].id in seen
    ensures Explored(g, seen, queue[..|queue| - 1])
  {
    hide Depends, Reachable, Chain;
    QueueShrinks(queue);
  }

  lemma QueueShrinks(queue: seq<Entry>)
    requires queue != []
    ensures forall id :: Queued(queue, id) ==> Queued(queue[..|queue| - 1], id) || id == queue[|queue| - 1].id
  {
    forall id | Queued(queue, id) && id != queue[|queue| - 1].id ensures Queued(queue[..|queue| - 1], id) {
      var i :| 0 <= i < |queue| && queue[i].id == id;
      assert queue[..|queue| - 1][i].id == id;
    }
  }

  /** Visiting a node that is followed no further. */
  lemma VisitLeaf(g: Graph, seen: set<string>, queue: seq<Entry>)
    requires Explored(g, seen, queue) && queue != []
    requires var id := queue[|queue| - 1].id;
             id !in seen && id in g.nodes && (id !in g.packages || g.nodes[id].None?)
    ensures Explored(g, seen + {queue[|queue| - 1].id}, queue[..|queue| - 1])
  {
    var id := queue[|queue| - 1].id;
    LeafHasNoEdges(g, id);
    RootFirst(g, seen, queue);
    hide Depends, Reachable, Chain, Queued;
    QueueShrinks(queue);
  }

  lemma LeafHasNoEdges(g: Graph, id: string)
    ensures id in g.nodes && g.nodes[id].None? ==> forall b :: !Depends(g, id, b)
  {
  }

  lemma VisitNode(g: Graph, seen: set<string>, queue: seq<Entry>, deps: seq<Dependency>, queue': seq<Entry>)
    requires Explored(g, seen, queue) && queue != []
    requires queue[|queue| - 1].id !in seen && queue[|queue| - 1].id in g.nodes
    requires g.nodes[queue[|queue| - 1].id] == Some(deps)
    requires |queue| - 1 <= |queue'| && queue'[..|queue| - 1] == queue[..|queue| - 1]
    requires forall k :: |queue| - 1 <= k < |queue'| ==> LeadsTo(g, queue[|queue| - 1].path, deps, queue'[k])
    requires forall i :: 0 <= i < |deps| && Follows(g, deps[i]) ==> Queued(queue', deps[i].pkg.value)
    ensures Explored(g, seen + {queue[|queue| - 1].id}, queue')
  {
    var id := queue[|queue| - 1].id;
    RootFirst(g, seen, queue);
    forall k | |queue| - 1 <= k < |queue'| ensures Chain(g, queue'[k].id, queue'[k].path) {
      assert Depends(g, id, queue'[k].id);
      ChainStep(g, id, queue'[k].id, queue[|queue| - 1].path);
    }
    forall b | Depends(g, id, b) ensures Queued(queue', b) {}
    forall b | Queued(queue[..|queue| - 1], b) ensures Queued(queue', b) {
      var i :| 0 <= i < |queue| - 1 && queue[..|queue| - 1][i].id == b;
      assert queue'[i] == queue'[..|queue| - 1][i];
    }
    hide Depends, Reachable, Chain, Queued;
    QueueShrinks(queue);
    forall k | 0 <= k < |queue'|
      ensures queue'[k].id in g.nodes && Chain(g, queue'[k].id, queue'[k].path) && |queue'[k].path| > 1
    {
      if k < |queue| - 1 { assert queue'[k] == queue'[..|queue| - 1][k] == queue[k]; }
    }
  }

  lemma EverythingSeen(g: Graph, seen: set<string>)
    requires Explored(g, seen, [])
    ensures AllClean(g, seen) <==> CleanClosure(g)
    ensures g.root in g.packages ==> forall id :: Reachable(g, id) ==> id in seen
  {
    DependedOnIsResolved(g);
    hide Depends;
    if g.root in g.packages {
      forall id | Reachable(g, id) ensures id in seen {
        var walk :| Reaches(g, walk, id);
        ClosedSetHoldsClosure(g, seen * g.packages.Keys, walk);
      }
    }
    if AllClean(g, seen) { assert Clean(g, g.root); }
    if CleanClosure(g) { assert forall id :: id in seen ==> Reachable(g, id); }
  }

  lemma DependedOnIsResolved(g: Graph)
    ensures forall a, b :: Depends(g, a, b) ==> b in g.packages
  {
  }

  // ----- the whole audit

  /** The metadata has the shape and the one resolved root the search starts from. */
  predicate WellShaped(metadata: Metadata, rootName: string) {
    && metadata.packages.Some? && metadata.nodes.Some?
    && DistinctIds(PackageIds(PackagesOf(metadata.packages.value)))
    && DistinctIds(NodeIds(NodesOf(metadata.nodes.value)))
    && var roots := Roots(PackagesOf(metadata.packages.value), rootName);
       |roots| == 1 && roots[0] in NodeMap(NodesOf(metadata.nodes.value))
  }

  function GraphOf(metadata: Metadata, rootName: string, walletManifest: Option<string>): Graph
    requires WellShaped(metadata, rootName)
  {
    var ps := PackagesOf(metadata.packages.value);
    Graph(PackageMap(ps), NodeMap(NodesOf(metadata.nodes.value)), Roots(ps, rootName)[0], rootName, walletManifest)
  }

  /** The first thing wrong with the shape of the metadata. */
  function ShapeFault(metadata: Metadata, rootName: string): Violation
    requires !WellShaped(metadata, rootName)
  {
    if metadata.packages.None? then MissingPackageList
    else if metadata.nodes.None? then MissingNodes
    else if !DistinctIds(PackageIds(PackagesOf(metadata.packages.value))) then DuplicatePackages
    else if !DistinctIds(NodeIds(NodesOf(metadata.nodes.value))) then DuplicateNodes
    else if |Roots(PackagesOf(metadata.packages.value), rootName)| != 1 then WrongRootCount
    else RootNotResolved
  }

  /** No violations exactly when the metadata is well shaped and the closure is clean. */
  method AuditMetadata(metadata: Metadata, rootName: string, walletManifest: Option<string>)
    returns (violations: seq<Violation>)
    ensures violations == [] <==>
            WellShaped(metadata, rootName) && CleanClosure(GraphOf(metadata, rootName, walletManifest))
    ensures WellShaped(metadata, rootName) ==>
            var g := GraphOf(metadata, rootName, walletManifest);
            && (forall i :: 0 <= i < |violations| ==> Justified(g, violations[i]))
            && (g.root in g.packages ==> forall id :: Reachable(g, id) ==> Reported(g, id, violations))
    ensures !WellShaped(metadata, rootName) ==> violations == [ShapeFault(metadata, rootName)]
  {
    hide CleanClosure, Justified, Reachable, Reported;
    if metadata.packages.None? {
      return [MissingPackageList];
    }
    if metadata.nodes.None? {
      return [MissingNodes];
    }
    var ps, ns := PackagesOf(metadata.packages.value), NodesOf(metadata.nodes.value);
    if !DistinctIds(PackageIds(ps)) {
      return [DuplicatePackages];
    }
    if !DistinctIds(NodeIds(ns)) {
      return [DuplicateNodes];
    }
    var roots := Roots(ps, rootName);
    if |roots| != 1 {
      return [WrongRootCount];
    }
    if roots[0] !in NodeMap(ns) {
      return [RootNotResolved];
    }
    violations := Search(GraphOf(metadata, rootName, walletManifest));
  }
}
