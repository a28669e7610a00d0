/** How the graph that the audit searches follows from the Cargo metadata. */
module AuditGraph {
  import opened Bytes
  import opened Audit

  /** Some package entry of the metadata is this package. */
  ghost predicate ListsPackage(entries: seq<PackageEntry>, package: Package) {
    exists i :: 0 <= i < |entries| && entries[i] == APackage(package)
  }

  ghost predicate ListsNode(entries: seq<NodeEntry>, id: string, deps: Option<seq<Dependency>>) {
    exists i :: 0 <= i < |entries| && entries[i] == ANode(id, deps)
  }

  /** The graph holds exactly the entries of the metadata, and its root is the one package of
      the root's name. */
  lemma GraphIsMetadata(metadata: Metadata, rootName: string, walletManifest: Option<string>)
    requires WellShaped(metadata, rootName)
    ensures var g := GraphOf(metadata, rootName, walletManifest);
            && g.rootName == rootName && g.walletManifest == walletManifest
            && (forall id, deps :: (id in g.nodes && g.nodes[id] == deps) <==> ListsNode(metadata.nodes.value, id, deps))
            && (forall id, p :: (id in g.packages && g.packages[id] == p) <==>
                                  id == p.id && ListsPackage(metadata.packages.value, p))
            && (forall p :: ListsPackage(metadata.packages.value, p) ==> (p.name == rootName <==> p.id == g.root))
            && g.root in g.packages
  {
    hide PackagesOf, NodesOf, PackageMap, NodeMap, Roots, DistinctIds;
    var ps, ns := PackagesOf(metadata.packages.value), NodesOf(metadata.nodes.value);
    var g := GraphOf(metadata, rootName, walletManifest);
    PackagesAreListed(metadata.packages.value);
    NodesAreListed(metadata.nodes.value);
    PackageMapHolds(ps);
    NodeMapHolds(ns);
    var r := RootPackage(ps, rootName);
    OnlyOneRoot(ps, rootName, r);
    assert g.packages[r.id] == r;
    forall p | ListsPackage(metadata.packages.value, p) ensures p.name == rootName <==> p.id == g.root {
      if p.id == g.root { SameId(ps, r, p); }
    }
  }

  /** Shape, over the entries themselves: lists present, ids distinct, one package of the
      root's name, and a resolve node for it. */
  lemma WellShapedIff(metadata: Metadata, rootName: string)
    ensures WellShaped(metadata, rootName) <==>
            && metadata.packages.Some? && metadata.nodes.Some?
            && NoPackageTwice(metadata.packages.value) && NoNodeTwice(metadata.nodes.value)
            && exists r, deps :: IsRoot(metadata.packages.value, rootName, r) && ListsNode(metadata.nodes.value, r.id, deps)
  {
    hide PackagesOf, NodesOf, PackageMap, NodeMap, Roots, DistinctIds, NoPackageTwice, NoNodeTwice, ListsNode, ListsPackage;
    if metadata.packages.Some? && metadata.nodes.Some? {
      var entries, nodes := metadata.packages.value, metadata.nodes.value;
      var ps, ns := PackagesOf(entries), NodesOf(nodes);
      PackagesAreListed(entries);
      NodesAreListed(nodes);
      DistinctPackages(entries);
      DistinctNodes(nodes);
      if DistinctIds(PackageIds(ps)) && DistinctIds(NodeIds(ns)) {
        NodeMapHolds(ns);
        RootIff(ps, rootName);
        forall r ensures OnlyRoot(ps, rootName, r) <==> IsRoot(entries, rootName, r) {}
        hide OnlyRoot, IsRoot;
        forall id ensures id in NodeMap(ns) <==> exists deps :: ListsNode(nodes, id, deps) {
          if id in NodeMap(ns) { assert ListsNode(nodes, id, NodeMap(ns)[id]); }
        }
      }
    }
  }

  /** One listed package has the name, and it is `r`. */
  ghost predicate IsRoot(entries: seq<PackageEntry>, rootName: string, r: Package) {
    && ListsPackage(entries, r) && r.name == rootName
    && forall p :: ListsPackage(entries, p) && p.name == rootName ==> p == r
  }

  ghost predicate NoPackageTwice(entries: seq<PackageEntry>) {
    forall i, j :: 0 <= i < j < |entries| && entries[i].APackage? && entries[j].APackage? ==>
      entries[i].package.id != entries[j].package.id
  }

  ghost predicate NoNodeTwice(entries: seq<NodeEntry>) {
    forall i, j :: 0 <= i < j < |entries| && entries[i].ANode? && entries[j].ANode? ==> entries[i].id != entries[j].id
  }

  lemma {:induction false} PackagesAreListed(entries: seq<PackageEntry>)
    ensures forall p :: p in PackagesOf(entries) <==> ListsPackage(entries, p)
  {
    if entries != [] {
      PackagesAreListed(entries[1..]);
      forall p ensures ListsPackage(entries, p) <==> entries[0] == APackage(p) || ListsPackage(entries[1..], p) {
        if ListsPackage(entries, p) && entries[0] != APackage(p) {
          var i :| 0 <= i < |entries| && entries[i] == APackage(p);
          assert entries[1..][i - 1] == APackage(p);
        }
      }
    }
  }

  lemma {:induction false} NodesAreListed(entries: seq<NodeEntry>)
    ensures forall id, deps :: ANode(id, deps) in NodesOf(entries) <==> ListsNode(entries, id, deps)
  {
    if entries != [] {
      NodesAreListed(entries[1..]);
      forall id, deps
        ensures ListsNode(entries, id, deps) <==> entries[0] == ANode(id, deps) || ListsNode(entries[1..], id, deps)
      {
        if ListsNode(entries, id, deps) && entries[0] != ANode(id, deps) {
          var i :| 0 <= i < |entries| && entries[i] == ANode(id, deps);
          assert entries[1..][i - 1] == ANode(id, deps);
        }
      }
    }
  }

  ghost predicate MapsPackages(m: map<string, Package>, ps: seq<Package>) {
    && (forall id :: id in m ==> m[id] in ps && m[id].id == id)
    && (forall p :: p in ps ==> p.id in m && m[p.id] == p)
  }

  lemma {:induction false} PackageMapHolds(ps: seq<Package>)
    requires DistinctIds(PackageIds(ps))
    ensures MapsPackages(PackageMap(ps), ps)
  {
    hide DistinctIds;
    if ps != [] {
      var init, last := ps[..|ps| - 1], ps[|ps| - 1];
      LastPackageIsNew(ps);
      PackageMapHolds(init);
      hide MapsPackages;
      OneMorePackage(PackageMap(init), init, last);
      assert ps == init + [last];
    }
  }

  lemma LastPackageIsNew(ps: seq<Package>)
    requires ps != [] && DistinctIds(PackageIds(ps))
    ensures DistinctIds(PackageIds(ps[..|ps| - 1]))
    ensures forall p :: p in ps[..|ps| - 1] ==> p.id != ps[|ps| - 1].id
  {
    var init := ps[..|ps| - 1];
    forall i, j | 0 <= i < j < |init| ensures PackageIds(init)[i] != PackageIds(init)[j] {
      assert PackageIds(ps)[i] != PackageIds(ps)[j];
    }
    forall i | 0 <= i < |init| ensures init[i].id != ps[|ps| - 1].id {
      assert PackageIds(ps)[i] != PackageIds(ps)[|ps| - 1];
    }
  }

  lemma OneMorePackage(m: map<string, Package>, init: seq<Package>, last: Package)
    requires MapsPackages(m, init) && forall p :: p in init ==> p.id != last.id
    ensures MapsPackages(m[last.id := last], init + [last])
  {
  }

  ghost predicate MapsNodes(m: map<string, Option<seq<Dependency>>>, ns: seq<NodeEntry>) {
    && (forall id :: id in m ==> ANode(id, m[id]) in ns)
    && (forall n :: n in ns && n.ANode? ==> n.id in m && m[n.id] == n.deps)
  }

  lemma {:induction false} NodeMapHolds(ns: seq<NodeEntry>)
    requires (forall i :: 0 <= i < |ns| ==> ns[i].ANode?) && DistinctIds(NodeIds(ns))
    ensures MapsNodes(NodeMap(ns), ns)
  {
    hide DistinctIds;
    if ns != [] {
      var init, last := ns[..|ns| - 1], ns[|ns| - 1];
      LastNodeIsNew(ns);
      NodeMapHolds(init);
      hide MapsNodes;
      OneMoreNode(NodeMap(init), init, last);
      assert ns == init + [last];
    }
  }

  lemma LastNodeIsNew(ns: seq<NodeEntry>)
    requires ns != [] && (forall i :: 0 <= i < |ns| ==> ns[i].ANode?) && DistinctIds(NodeIds(ns))
    ensures DistinctIds(NodeIds(ns[..|ns| - 1]))
    ensures forall n :: n in ns[..|ns| - 1] ==> n.ANode? && n.id != ns[|ns| - 1].id
  {
    var init := ns[..|ns| - 1];
    forall i, j | 0 <= i < j < |init| ensures NodeIds(init)[i] != NodeIds(init)[j] {
      assert NodeIds(ns)[i] != NodeIds(ns)[j];
    }
    forall i | 0 <= i < |init| ensures init[i].id != ns[|ns| - 1].id {
      assert NodeIds(ns)[i] != NodeIds(ns)[|ns| - 1];
    }
  }

  lemma OneMoreNode(m: map<string, Option<seq<Dependency>>>, init: seq<NodeEntry>, last: NodeEntry)
    requires MapsNodes(m, init) && last.ANode? && forall n :: n in init ==> n.ANode? && n.id != last.id
    ensures MapsNodes(m[last.id := last.deps], init + [last])
  {
  }

  ghost predicate HasName(ps: seq<Package>, rootName: string, id: string) {
    exists i :: 0 <= i < |ps| && ps[i].name == rootName && ps[i].id == id
  }

  lemma {:induction false} RootsAreNamed(ps: seq<Package>, rootName: string)
    ensures forall id :: id in Roots(ps, rootName) <==> HasName(ps, rootName, id)
  {
    if ps != [] {
      RootsAreNamed(ps[1..], rootName);
      forall id ensures HasName(ps, rootName, id) <==> (ps[0].name == rootName && ps[0].id == id) || HasName(ps[1..], rootName, id) {
        NameCons(ps, rootName, id);
      }
    }
  }

  lemma NameCons(ps: seq<Package>, rootName: string, id: string)
    requires ps != []
    ensures HasName(ps, rootName, id) <==> (ps[0].name == rootName && ps[0].id == id) || HasName(ps[1..], rootName, id)
  {
    if HasName(ps, rootName, id) {
      var i :| 0 <= i < |ps| && ps[i].name == rootName && ps[i].id == id;
      if i > 0 { assert ps[1..][i - 1] == ps[i]; }
    }
    if HasName(ps[1..], rootName, id) {
      var i :| 0 <= i < |ps[1..]| && ps[1..][i].name == rootName && ps[1..][i].id == id;
      assert ps[i + 1] == ps[1..][i];
    }
  }

  lemma DistinctCons(id: string, ids: seq<string>)
    ensures DistinctIds([id] + ids) <==> id !in ids && DistinctIds(ids)
  {
    var all := [id] + ids;
    forall k | 0 <= k < |ids| ensures ids[k] == all[k + 1] {}
    if DistinctIds(all) {
      forall i, j | 0 <= i < j < |ids| ensures ids[i] != ids[j] { assert all[i + 1] != all[j + 1]; }
      forall k | 0 <= k < |ids| ensures ids[k] != id { assert all[0] != all[k + 1]; }
    }
    if id !in ids && DistinctIds(ids) {
      forall i, j | 0 <= i < j < |all| ensures all[i] != all[j] {
        assert all[j] == ids[j - 1];
        if i > 0 { assert all[i] == ids[i - 1]; }
      }
    }
  }

  lemma {:induction false} DistinctPackages(entries: seq<PackageEntry>)
    ensures DistinctIds(PackageIds(PackagesOf(entries))) <==> NoPackageTwice(entries)
  {
    if entries == [] {
      NoneAreDistinct();
    } else {
      PackageIdsCons(entries);
      PackageTwiceCons(entries);
      hide NoPackageTwice, DistinctIds, PackagesOf, HasPackageId;
      var tail := entries[1..];
      DistinctPackages(tail);
      if entries[0].APackage? {
        DistinctCons(entries[0].package.id, PackageIds(PackagesOf(tail)));
        PackageIdListed(tail, entries[0].package.id);
      }
    }
  }

  lemma PackageIdsCons(entries: seq<PackageEntry>)
    requires entries != []
    ensures var ids := PackageIds(PackagesOf(entries[1..]));
            PackageIds(PackagesOf(entries)) == if entries[0].APackage? then [entries[0].package.id] + ids else ids
  {
    var rest := PackagesOf(entries[1..]);
    if entries[0].APackage? {
      assert PackagesOf(entries) == [entries[0].package] + rest;
      FirstPackageId(entries[0].package, rest);
    } else {
      assert PackagesOf(entries) == [] + rest == rest;
    }
  }

  lemma FirstPackageId(p: Package, rest: seq<Package>)
    ensures PackageIds([p] + rest) == [p.id] + PackageIds(rest)
  {
    var ids, both := PackageIds([p] + rest), [p.id] + PackageIds(rest);
    forall i | 0 <= i < |ids| ensures ids[i] == both[i] {}
  }

  ghost predicate HasPackageId(entries: seq<PackageEntry>, id: string) {
    exists k :: 0 <= k < |entries| && entries[k].APackage? && entries[k].package.id == id
  }

  lemma PackageIdListed(entries: seq<PackageEntry>, id: string)
    ensures id in PackageIds(PackagesOf(entries)) <==> HasPackageId(entries, id)
  {
    PackagesAreListed(entries);
    hide PackagesOf;
    var ps := PackagesOf(entries);
    if id in PackageIds(ps) {
      var i :| 0 <= i < |ps| && PackageIds(ps)[i] == id;
      assert ListsPackage(entries, ps[i]);
    }
    if k :| 0 <= k < |entries| && entries[k].APackage? && entries[k].package.id == id {
      assert ListsPackage(entries, entries[k].package);
      var i :| 0 <= i < |ps| && ps[i] == entries[k].package;
      assert PackageIds(ps)[i] == id;
    }
  }

  lemma PackageTwiceCons(entries: seq<PackageEntry>)
    requires entries != []
    ensures var tail := entries[1..];
            NoPackageTwice(entries) <==>
            && NoPackageTwice(tail)
            && (entries[0].APackage? ==> !HasPackageId(tail, entries[0].package.id))
  {
    var tail := entries[1..];
    forall k | 0 <= k < |tail| ensures tail[k] == entries[k + 1] {}
    if NoPackageTwice(entries) {
      forall i, j | 0 <= i < j < |tail| && tail[i].APackage? && tail[j].APackage?
        ensures tail[i].package.id != tail[j].package.id
      {
        assert entries[i + 1].package.id != entries[j + 1].package.id;
      }
    }
    forall i, j | 0 < i < j < |entries| ensures entries[i] == tail[i - 1] && entries[j] == tail[j - 1] {}
  }

  lemma {:induction false} DistinctNodes(entries: seq<NodeEntry>)
    ensures DistinctIds(NodeIds(NodesOf(entries))) <==> NoNodeTwice(entries)
  {
    if entries == [] {
      NoneAreDistinct();
    } else {
      NodeIdsCons(entries);
      NodeTwiceCons(entries);
      hide NoNodeTwice, DistinctIds, NodesOf, HasNodeId;
      var tail := entries[1..];
      DistinctNodes(tail);
      if entries[0].ANode? {
        DistinctCons(entries[0].id, NodeIds(NodesOf(tail)));
        NodeIdListed(tail, entries[0].id);
      }
    }
  }

  lemma NodeIdsCons(entries: seq<NodeEntry>)
    requires entries != []
    ensures var ids := NodeIds(NodesOf(entries[1..]));
            NodeIds(NodesOf(entries)) == if entries[0].ANode? then [entries[0].id] + ids else ids
  {
    var rest := NodesOf(entries[1..]);
    if entries[0].ANode? {
      assert NodesOf(entries) == [entries[0]] + rest;
      FirstNodeId(entries[0], rest);
    } else {
      assert NodesOf(entries) == [] + rest == rest;
    }
  }

  lemma FirstNodeId(n: NodeEntry, rest: seq<NodeEntry>)
    requires n.ANode? && forall i :: 0 <= i < |rest| ==> rest[i].ANode?
    ensures NodeIds([n] + rest) == [n.id] + NodeIds(rest)
  {
    var ids, both := NodeIds([n] + rest), [n.id] + NodeIds(rest);
    forall i | 0 <= i < |ids| ensures ids[i] == both[i] {}
  }

  ghost predicate HasNodeId(entries: seq<NodeEntry>, id: string) {
    exists k :: 0 <= k < |entries| && entries[k].ANode? && entries[k].id == id
  }

  lemma NodeIdListed(entries: seq<NodeEntry>, id: string)
    ensures id in NodeIds(NodesOf(entries)) <==> HasNodeId(entries, id)
  {
    NodesAreListed(entries);
    hide NodesOf;
    var ns := NodesOf(entries);
    if id in NodeIds(ns) {
      var i :| 0 <= i < |ns| && NodeIds(ns)[i] == id;
      assert ANode(ns[i].id, ns[i].deps) in ns;
      assert ListsNode(entries, ns[i].id, ns[i].deps);
    }
    if k :| 0 <= k < |entries| && entries[k].ANode? && entries[k].id == id {
      assert ListsNode(entries, id, entries[k].deps);
      var i :| 0 <= i < |ns| && ns[i] == ANode(id, entries[k].deps);
      assert NodeIds(ns)[i] == id;
    }
  }

  lemma NodeTwiceCons(entries: seq<NodeEntry>)
    requires entries != []
    ensures var tail := entries[1..];
            NoNodeTwice(entries) <==>
            && NoNodeTwice(tail)
            && (entries[0].ANode? ==> !HasNodeId(tail, entries[0].id))
  {
    var tail := entries[1..];
    forall k | 0 <= k < |tail| ensures tail[k] == entries[k + 1] {}
    if NoNodeTwice(entries) {
      forall i, j | 0 <= i < j < |tail| && tail[i].ANode? && tail[j].ANode? ensures tail[i].id != tail[j].id {
        assert entries[i + 1].id != entries[j + 1].id;
      }
    }
    forall i, j | 0 < i < j < |entries| ensures entries[i] == tail[i - 1] && entries[j] == tail[j - 1] {}
  }

  lemma {:induction false} RootsAreDistinct(ps: seq<Package>, rootName: string)
    requires DistinctIds(PackageIds(ps))
    ensures DistinctIds(Roots(ps, rootName))
    ensures forall id :: id in Roots(ps, rootName) ==> id in PackageIds(ps)
  {
    hide DistinctIds;
    if ps != [] {
      var ids, roots := PackageIds(ps[1..]), Roots(ps[1..], rootName);
      assert PackageIds(ps) == [ps[0].id] + ids;
      DistinctCons(ps[0].id, ids);
      RootsAreDistinct(ps[1..], rootName);
      DistinctCons(ps[0].id, roots);
      assert [] + roots == roots;
    } else {
      NoneAreDistinct();
    }
  }

  lemma NoneAreDistinct()
    ensures DistinctIds([])
  {
  }

  /** One package of the list has the name, and it is `r`. */
  ghost predicate OnlyRoot(ps: seq<Package>, rootName: string, r: Package) {
    r in ps && r.name == rootName && forall p :: p in ps && p.name == rootName ==> p == r
  }

  /** There is one root exactly when one package has the name, and then it is that package's id. */
  lemma RootIff(ps: seq<Package>, rootName: string)
    requires DistinctIds(PackageIds(ps))
    ensures |Roots(ps, rootName)| == 1 <==> exists r :: OnlyRoot(ps, rootName, r)
    ensures forall r :: OnlyRoot(ps, rootName, r) ==> Roots(ps, rootName) == [r.id]
  {
    hide Roots, DistinctIds, OnlyRoot;
    if |Roots(ps, rootName)| == 1 {
      var r := RootPackage(ps, rootName);
    }
    forall r | OnlyRoot(ps, rootName, r) ensures Roots(ps, rootName) == [r.id] {
      OnlyOneRoot(ps, rootName, r);
    }
  }

  lemma RootPackage(ps: seq<Package>, rootName: string) returns (r: Package)
    requires DistinctIds(PackageIds(ps)) && |Roots(ps, rootName)| == 1
    ensures OnlyRoot(ps, rootName, r)
  {
    hide Roots, DistinctIds;
    var roots := Roots(ps, rootName);
    RootsAreNamed(ps, rootName);
    assert roots[0] in roots;
    var i :| 0 <= i < |ps| && ps[i].name == rootName && ps[i].id == roots[0];
    r := ps[i];
    forall p | p in ps && p.name == rootName ensures p == r {
      assert HasName(ps, rootName, p.id);
      assert p.id in roots;
      SameId(ps, p, r);
    }
  }

  lemma OnlyOneRoot(ps: seq<Package>, rootName: string, r: Package)
    requires DistinctIds(PackageIds(ps)) && OnlyRoot(ps, rootName, r)
    ensures Roots(ps, rootName) == [r.id]
  {
    var roots := Roots(ps, rootName);
    RootsAreNamed(ps, rootName);
    RootsAreDistinct(ps, rootName);
    assert |roots| > 1 ==> roots[0] != roots[1];
    hide Roots;
    forall k | 0 <= k < |roots| ensures roots[k] == r.id {
      assert roots[k] in roots;
      var i :| 0 <= i < |ps| && ps[i].name == rootName && ps[i].id == roots[k];
      assert ps[i] in ps;
    }
    var i :| 0 <= i < |ps| && ps[i] == r;
    assert r.id in roots;
  }

  lemma SameId(ps: seq<Package>, p: Package, q: Package)
    requires DistinctIds(PackageIds(ps)) && p in ps && q in ps && p.id == q.id
    ensures p == q
  {
    var i :| 0 <= i < |ps| && ps[i] == p;
    var j :| 0 <= j < |ps| && ps[j] == q;
    assert PackageIds(ps)[i] == PackageIds(ps)[j];
  }
}
