/**
 * The root of an assembly's tree: its assembly references, module references and resources,
 * each group filled into a sorted list keyed by name (which refuses a second entry with the
 * same name), then one node per namespace of the assembly's own top-level types, in name
 * order, each holding those types in name order.
 */
module AssemblyNodes {
  import opened Wrappers
  import opened Strings
  import opened Sorting
  import opened TypeSystem
  import opened TreeNodes

  function AssemblyRefNodeOf(ar: AssemblyRef): Node
  {
    Node(AssemblyReferenceNode, AssemblyRefTag(ar), [])
  }

  function ModuleRefNodeOf(h: StringHandle): Node
  {
    Node(ModuleReferenceNode, ModuleRefTag(h), [])
  }

  function ResourceNodeOf(name: string): Node
  {
    Node(ResourceNode, ResourceTag(name), [])
  }

  /** One node per element, in the same order. */
  function NodesOf<A>(xs: seq<A>, f: A -> Node): (r: seq<Node>)
    ensures |r| == |xs|
    ensures forall i :: 0 <= i < |xs| ==> r[i] == f(xs[i])
  {
    seq(|xs|, i requires 0 <= i < |xs| => f(xs[i]))
  }

  function ReferenceNodes(pe: PEFile): seq<Node>
  {
    NodesOf(pe.metadata.assemblyRefs, AssemblyRefNodeOf)
  }

  function ModuleReferenceNodes(pe: PEFile): seq<Node>
  {
    NodesOf(pe.metadata.moduleRefs, ModuleRefNodeOf)
  }

  function ResourceNodes(pe: PEFile): seq<Node>
  {
    NodesOf(pe.resources, ResourceNodeOf)
  }

  /** The namespaces of the top-level types whose module is `aname`, each once, in order of first appearance. */
  function NamespacesOf(types: seq<TypeDef>, aname: string): seq<string>
    decreases |types|
  {
    if |types| == 0 then []
    else
      var list := NamespacesOf(types[..|types| - 1], aname);
      var t := types[|types| - 1];
      if t.parentModuleName != aname || t.namespace in list then list else list + [t.namespace]
  }

  function Identity(s: string): string { s }

  /** The types a namespace node shows: those of module `aname` in namespace `ns`. */
  function InNamespace(ns: string, aname: string): TypeDef -> bool
  {
    (t: TypeDef) => t.parentModuleName == aname && t.namespace == ns
  }

  /** The namespace node: the matching top-level types, in name order. */
  function NamespaceNodeOf(ns: string, aname: string, types: seq<TypeDef>): Node
  {
    Node(NamespaceNode, NamespaceTag(ns), FilterMap(SortBy(types, TypeDefName), InNamespace(ns, aname), TypeNodeOf))
  }

  /** The sorted namespace list of the assembly's own types. */
  function NamespaceList(pe: PEFile): seq<string>
  {
    SortBy(NamespacesOf(pe.types, pe.name), Identity)
  }

  /** The namespace node constructor for the assembly's own types. */
  function NamespaceNodeFor(pe: PEFile): string -> Node
  {
    (ns: string) => NamespaceNodeOf(ns, pe.name, pe.types)
  }

  function NamespaceNodes(pe: PEFile): seq<Node>
  {
    NodesOf(NamespaceList(pe), NamespaceNodeFor(pe))
  }

  /**
   * The assembly node, or None when adding a reference, a module reference or a resource to
   * its sorted list fails because the name is already there.
   */
  function AssemblyNodeOf(pe: PEFile): Option<Node>
  {
    match (SortedAddAll(ReferenceNodes(pe), NodeName), SortedAddAll(ModuleReferenceNodes(pe), NodeName),
           SortedAddAll(ResourceNodes(pe), NodeName))
    case (Some(refs), Some(modules), Some(resources)) =>
      Some(Node(AssemblyNode, PETag(pe), refs + modules + resources + NamespaceNodes(pe)))
    case _ => None
  }

  // ----- namespaces -----

  /** The namespace list holds each namespace of the module's types exactly once. */
  lemma {:induction false} NamespacesOfSpec(types: seq<TypeDef>, aname: string)
    ensures Distinct(NamespacesOf(types, aname))
    ensures forall ns :: ns in NamespacesOf(types, aname) <==> exists t :: t in types && t.parentModuleName == aname && t.namespace == ns
    decreases |types|
  {
    if |types| > 0 {
      var init := types[..|types| - 1];
      var t := types[|types| - 1];
      assert types == init + [t];
      NamespacesOfSpec(init, aname);
      forall ns ensures ns in NamespacesOf(types, aname) <==> exists u :: u in types && u.parentModuleName == aname && u.namespace == ns {
        if ns in NamespacesOf(init, aname) {
          var u :| u in init && u.parentModuleName == aname && u.namespace == ns;
          assert u in types;
        }
        if exists u :: u in types && u.parentModuleName == aname && u.namespace == ns {
          var u :| u in types && u.parentModuleName == aname && u.namespace == ns;
          if u != t {
            assert u in init;
          }
        }
      }
    }
  }

  /** The namespace list is sorted, without repetitions, and names exactly the namespaces of the assembly's own types. */
  lemma NamespaceListSpec(pe: PEFile)
    ensures SortedBy(NamespaceList(pe), Identity)
    ensures Distinct(NamespaceList(pe))
    ensures forall ns :: ns in NamespaceList(pe) <==> exists t :: t in pe.types && t.parentModuleName == pe.name && t.namespace == ns
  {
    NamespaceListSorted(pe);
    NamespacesOfSpec(pe.types, pe.name);
    SortBySameElements(NamespacesOf(pe.types, pe.name), Identity);
  }

  lemma NamespaceListSorted(pe: PEFile)
    ensures SortedBy(NamespaceList(pe), Identity) && Distinct(NamespaceList(pe))
  {
    NamespacesOfSpec(pe.types, pe.name);
    SortByDistinct(NamespacesOf(pe.types, pe.name), Identity);
  }

  /** Nodes named after a sorted list of distinct names, all of one class, form a group with distinct names. */
  lemma NamedNodesGroup(nodes: seq<Node>, list: seq<string>, k: NodeKind, rank: nat)
    requires |nodes| == |list| && forall i :: 0 <= i < |nodes| ==> nodes[i].kind == k && NodeName(nodes[i]) == list[i]
    requires SortedBy(list, Identity) && Distinct(list) && Rank(k) == rank
    ensures Group(nodes, rank)
    ensures DistinctKeys(nodes, NodeName)
  {
    forall i, j | 0 <= i < j < |nodes| ensures NodeName(nodes[i]) != NodeName(nodes[j]) && Le(NodeName(nodes[i]), NodeName(nodes[j])) {
      assert Le(Identity(list[i]), Identity(list[j]));
    }
    forall n | n in nodes ensures Rank(n.kind) == rank {
      var m :| 0 <= m < |nodes| && nodes[m] == n;
    }
  }

  /** A namespace node is tagged with, so named after, its namespace. */
  lemma NamespaceNodeShape(pe: PEFile)
    ensures forall s :: NamespaceNodeFor(pe)(s).kind == NamespaceNode && NamespaceNodeFor(pe)(s).tag == NamespaceTag(s)
    ensures forall s :: NamespaceNodeFor(pe)(s).kind == NamespaceNode && NodeName(NamespaceNodeFor(pe)(s)) == s
  {
  }

  /** The namespace nodes form the namespace group: ascending, distinct names. */
  lemma NamespaceNodesOrdered(pe: PEFile)
    ensures Group(NamespaceNodes(pe), 3) && DistinctKeys(NamespaceNodes(pe), NodeName)
  {
    NamespaceNodesAt(pe);
    NamedNodesGroup(NamespaceNodes(pe), NamespaceList(pe), NamespaceNode, 3);
  }

  /** The i-th namespace node is the node of the i-th namespace of the list. */
  lemma NamespaceNodesAt(pe: PEFile)
    ensures |NamespaceNodes(pe)| == |NamespaceList(pe)|
    ensures forall i :: 0 <= i < |NamespaceNodes(pe)| ==>
              NamespaceNodes(pe)[i].kind == NamespaceNode && NodeName(NamespaceNodes(pe)[i]) == NamespaceList(pe)[i]
    ensures SortedBy(NamespaceList(pe), Identity) && Distinct(NamespaceList(pe)) && Rank(NamespaceNode) == 3
  {
    NamespaceListSorted(pe);
    NamespaceNodeShape(pe);
  }

  /** A node tagged with a name is among the nodes built from a list exactly when the name is in the list. */
  lemma NamedNodesMembers(list: seq<string>, f: string -> Node)
    requires forall s :: f(s).tag == NamespaceTag(s)
    ensures forall s :: f(s) in NodesOf(list, f) <==> s in list
  {
    var nodes := NodesOf(list, f);
    forall s ensures f(s) in nodes <==> s in list {
      if s in list {
        var k :| 0 <= k < |list| && list[k] == s;
        assert nodes[k] == f(s);
      }
      if f(s) in nodes {
        var k :| 0 <= k < |nodes| && nodes[k] == f(s);
        assert f(list[k]).tag == f(s).tag;
      }
    }
  }

  /** A namespace has a node exactly when some top-level type of the assembly's own module is in it. */
  lemma NamespaceNodesExact(pe: PEFile)
    ensures forall ns :: NamespaceNodeFor(pe)(ns) in NamespaceNodes(pe) <==>
                         exists t :: t in pe.types && t.parentModuleName == pe.name && t.namespace == ns
  {
    NamespaceListSpec(pe);
    NamespaceNodeShape(pe);
    NamedNodesMembers(NamespaceList(pe), NamespaceNodeFor(pe));
  }

  /** An empty namespace is labelled "[N] -", any other "[N] " and its name. */
  lemma NamespaceNodeLabel(ns: string, aname: string, types: seq<TypeDef>)
    ensures Text(NamespaceNodeOf(ns, aname, types)) == if ns == "" then "[N] -" else "[N] " + ns
  {
    NamespaceTagText(NamespaceNodeOf(ns, aname, types), ns);
  }

  lemma NamespaceTagText(n: Node, ns: string)
    requires n.tag == NamespaceTag(ns)
    ensures Text(n) == if ns == "" then "[N] -" else "[N] " + ns
  {
  }

  /** A namespace node's types come in ascending name order. */
  lemma NamespaceNodeSorted(ns: string, aname: string, types: seq<TypeDef>)
    ensures SortedBy(NamespaceNodeOf(ns, aname, types).children, NodeName)
  {
    TypesNamed(types);
    SortedFilterMap(types, TypeDefName, InNamespace(ns, aname), TypeNodeOf);
  }

  /** A namespace node holds the node of every top-level type of the module in that namespace. */
  lemma NamespaceNodeComplete(ns: string, aname: string, types: seq<TypeDef>)
    ensures forall t :: t in types && t.parentModuleName == aname && t.namespace == ns ==>
              TypeNodeOf(t) in NamespaceNodeOf(ns, aname, types).children
  {
    SortedGroupComplete(types, TypeDefName, InNamespace(ns, aname), TypeNodeOf);
  }

  /** A namespace node holds only type nodes of the module's types in that namespace. */
  lemma NamespaceNodeOnly(ns: string, aname: string, types: seq<TypeDef>)
    ensures forall n :: n in NamespaceNodeOf(ns, aname, types).children ==>
              n.kind == TypeNode && n.tag.TypeTag? && n.tag.typeDef in types
              && n.tag.typeDef.parentModuleName == aname && n.tag.typeDef.namespace == ns
  {
    assert forall t :: t in types && InNamespace(ns, aname)(t) ==> TypeNodeOf(t).tag == TypeTag(t) && t.parentModuleName == aname && t.namespace == ns;
    SortedFilterMapAll(types, TypeDefName, InNamespace(ns, aname), TypeNodeOf,
      (n: Node) => n.kind == TypeNode && n.tag.TypeTag? && n.tag.typeDef in types
                   && n.tag.typeDef.parentModuleName == aname && n.tag.typeDef.namespace == ns);
  }

  /** Every node of a sorted, filtered sequence has a property shared by the images of the selected elements. */
  lemma SortedFilterMapAll<A>(xs: seq<A>, key: A -> string, p: A -> bool, f: A -> Node, P: Node -> bool)
    requires forall x :: x in xs && p(x) ==> P(f(x))
    ensures forall n :: n in FilterMap(SortBy(xs, key), p, f) ==> P(n)
  {
    var sorted := SortBy(xs, key);
    forall x | x in sorted ensures x in xs {
      assert x in multiset(sorted);
    }
    FilterMapAll(sorted, p, f, P);
  }

  // ----- references and resources -----

  /** Nodes named by a key of their elements have distinct names exactly when the elements have distinct keys. */
  lemma DistinctNodeNames<A>(xs: seq<A>, f: A -> Node, key: A -> string)
    requires forall x :: x in xs ==> NodeName(f(x)) == key(x)
    ensures DistinctKeys(NodesOf(xs, f), NodeName) <==> DistinctKeys(xs, key)
  {
    var nodes := NodesOf(xs, f);
    assert forall i :: 0 <= i < |xs| ==> NodeName(nodes[i]) == key(xs[i]);
  }

  /** A filled sorted list of nodes of one class is a group of that class's rank. */
  lemma SortedListGroup(xs: seq<Node>, k: NodeKind)
    requires forall n :: n in xs ==> n.kind == k
    requires SortedAddAll(xs, NodeName).Some?
    ensures Group(SortedAddAll(xs, NodeName).value, Rank(k))
    ensures multiset(SortedAddAll(xs, NodeName).value) == multiset(xs)
  {
    SortedAddAllSpec(xs, NodeName);
    var r := SortedAddAll(xs, NodeName).value;
    forall n | n in r ensures Rank(n.kind) == Rank(k) {
      assert n in multiset(xs);
    }
  }

  /** Filling a sorted list with one node per element succeeds exactly when the elements' names are distinct. */
  lemma FillSucceeds<A>(xs: seq<A>, f: A -> Node, key: A -> string)
    requires forall x :: x in xs ==> NodeName(f(x)) == key(x)
    ensures SortedAddAll(NodesOf(xs, f), NodeName).Some? <==> DistinctKeys(xs, key)
  {
    SortedAddAllSpec(NodesOf(xs, f), NodeName);
    DistinctNodeNames(xs, f, key);
  }

  function RefName(ar: AssemblyRef): string { ar.name.value }
  function ModuleRefName(h: StringHandle): string { h.value }

  /**
   * Building the assembly node fails exactly when two assembly references, two module
   * references or two resources share a name.
   */
  lemma AssemblyNodeSucceeds(pe: PEFile)
    ensures AssemblyNodeOf(pe).Some? <==>
      && DistinctKeys(pe.metadata.assemblyRefs, RefName)
      && DistinctKeys(pe.metadata.moduleRefs, ModuleRefName)
      && Distinct(pe.resources)
  {
    ReferencesFill(pe);
    ModuleReferencesFill(pe);
    ResourcesFill(pe);
  }

  lemma ReferencesFill(pe: PEFile)
    ensures SortedAddAll(ReferenceNodes(pe), NodeName).Some? <==> DistinctKeys(pe.metadata.assemblyRefs, RefName)
  {
    FillSucceeds(pe.metadata.assemblyRefs, AssemblyRefNodeOf, RefName);
  }

  lemma ModuleReferencesFill(pe: PEFile)
    ensures SortedAddAll(ModuleReferenceNodes(pe), NodeName).Some? <==> DistinctKeys(pe.metadata.moduleRefs, ModuleRefName)
  {
    FillSucceeds(pe.metadata.moduleRefs, ModuleRefNodeOf, ModuleRefName);
  }

  lemma ResourcesFill(pe: PEFile)
    ensures SortedAddAll(ResourceNodes(pe), NodeName).Some? <==> Distinct(pe.resources)
  {
    FillSucceeds(pe.resources, ResourceNodeOf, Identity);
    assert DistinctKeys(pe.resources, Identity) <==> Distinct(pe.resources);
  }

  /** The node for a file is an assembly node tagged with that file. */
  lemma AssemblyNodeTagged(pe: PEFile)
    requires AssemblyNodeOf(pe).Some?
    ensures AssemblyNodeOf(pe).value.kind == AssemblyNode && AssemblyNodeOf(pe).value.tag == PETag(pe)
  {
  }

  /**
   * A built assembly node is tagged with its file and labelled "[A] name (version)"; its children
   * are the assembly references, module references, resources and namespaces, each group in
   * ascending name order, and each reference and resource appears once.
   */
  lemma AssemblyNodeOrdered(pe: PEFile)
    requires AssemblyNodeOf(pe).Some?
    ensures AssemblyNodeOf(pe).value.kind == AssemblyNode && AssemblyNodeOf(pe).value.tag == PETag(pe)
    ensures Text(AssemblyNodeOf(pe).value) == "[A] " + pe.name + " (" + pe.version + ")"
    ensures ChildOrder(AssemblyNodeOf(pe).value.children)
    ensures |AssemblyNodeOf(pe).value.children| ==
      |pe.metadata.assemblyRefs| + |pe.metadata.moduleRefs| + |pe.resources| + |NamespaceList(pe)|
  {
    var refs := SortedAddAll(ReferenceNodes(pe), NodeName).value;
    var modules := SortedAddAll(ModuleReferenceNodes(pe), NodeName).value;
    var resources := SortedAddAll(ResourceNodes(pe), NodeName).value;
    var namespaces := NamespaceNodes(pe);
    SortedListGroup(ReferenceNodes(pe), AssemblyReferenceNode);
    SortedListGroup(ModuleReferenceNodes(pe), ModuleReferenceNode);
    SortedListGroup(ResourceNodes(pe), ResourceNode);
    NamespaceNodesOrdered(pe);
    assert |refs| == |ReferenceNodes(pe)| by { assert |multiset(refs)| == |multiset(ReferenceNodes(pe))|; }
    assert |modules| == |ModuleReferenceNodes(pe)| by { assert |multiset(modules)| == |multiset(ModuleReferenceNodes(pe))|; }
    assert |resources| == |ResourceNodes(pe)| by { assert |multiset(resources)| == |multiset(ResourceNodes(pe))|; }
    GroupOrdered(refs, 0);
    OrderedAppend(refs, modules, 1);
    OrderedAppend(refs + modules, resources, 2);
    OrderedAppend(refs + modules + resources, namespaces, 3);
  }

  /** Every assembly reference, module reference and resource has its node among a built assembly node's children. */
  lemma AssemblyNodeComplete(pe: PEFile)
    requires AssemblyNodeOf(pe).Some?
    ensures forall ar :: ar in pe.metadata.assemblyRefs ==> AssemblyRefNodeOf(ar) in AssemblyNodeOf(pe).value.children
    ensures forall h :: h in pe.metadata.moduleRefs ==> ModuleRefNodeOf(h) in AssemblyNodeOf(pe).value.children
    ensures forall name :: name in pe.resources ==> ResourceNodeOf(name) in AssemblyNodeOf(pe).value.children
  {
    var c := AssemblyNodeOf(pe).value.children;
    var refs := SortedAddAll(ReferenceNodes(pe), NodeName).value;
    var modules := SortedAddAll(ModuleReferenceNodes(pe), NodeName).value;
    var resources := SortedAddAll(ResourceNodes(pe), NodeName).value;
    SortedAddAllSpec(ReferenceNodes(pe), NodeName);
    SortedAddAllSpec(ModuleReferenceNodes(pe), NodeName);
    SortedAddAllSpec(ResourceNodes(pe), NodeName);
    forall ar | ar in pe.metadata.assemblyRefs ensures AssemblyRefNodeOf(ar) in c {
      var k :| 0 <= k < |pe.metadata.assemblyRefs| && pe.metadata.assemblyRefs[k] == ar;
      assert ReferenceNodes(pe)[k] in multiset(refs);
    }
    forall h | h in pe.metadata.moduleRefs ensures ModuleRefNodeOf(h) in c {
      var k :| 0 <= k < |pe.metadata.moduleRefs| && pe.metadata.moduleRefs[k] == h;
      assert ModuleReferenceNodes(pe)[k] in multiset(modules);
    }
    forall name | name in pe.resources ensures ResourceNodeOf(name) in c {
      var k :| 0 <= k < |pe.resources| && pe.resources[k] == name;
      assert ResourceNodes(pe)[k] in multiset(resources);
    }
  }

  // ----- the constructor -----

  /** Adds the nodes one by one to an empty sorted list; None as soon as one's name is already there. */
  method FillSortedList(xs: seq<Node>) returns (r: Option<seq<Node>>)
    ensures r == SortedAddAll(xs, NodeName)
  {
    var list: seq<Node> := [];
    for i := 0 to |xs|
      invariant SortedAddAll(xs[..i], NodeName) == Some(list)
    {
      assert xs[..i + 1][..i] == xs[..i];
      if HasKey(list, NodeName, NodeName(xs[i])) {
        NoneStaysNone(xs, i + 1, NodeName);
        return None;
      }
      list := Insert(xs[i], list, NodeName);
    }
    assert xs[..|xs|] == xs;
    r := Some(list);
  }

  /** The distinct namespaces of the module's types, in order of first appearance. */
  method CollectNamespaces(types: seq<TypeDef>, aname: string) returns (list: seq<string>)
    ensures list == NamespacesOf(types, aname)
  {
    list := [];
    for i := 0 to |types|
      invariant list == NamespacesOf(types[..i], aname)
    {
      assert types[..i + 1][..i] == types[..i];
      var t := types[i];
      if t.parentModuleName != aname {
        continue;
      }
      if t.namespace !in list {
        list := list + [t.namespace];
      }
    }
    assert types[..|types|] == types;
  }

  /** The namespace node constructor: the matching top-level types in name order. */
  method BuildNamespaceNode(ns: string, aname: string, types: seq<TypeDef>) returns (n: Node)
    ensures n == NamespaceNodeOf(ns, aname, types)
  {
    var sorted := SortBy(types, TypeDefName);
    var nodes: seq<Node> := [];
    for i := 0 to |sorted|
      invariant nodes == FilterMap(sorted[..i], InNamespace(ns, aname), TypeNodeOf)
    {
      FilterMapStep(sorted, i, InNamespace(ns, aname), TypeNodeOf);
      nodes := AppendIfInNamespace(nodes, ns, aname, sorted[i]);
    }
    assert sorted[..|sorted|] == sorted;
    n := Node(NamespaceNode, NamespaceTag(ns), nodes);
  }

  /** One type of the loop: skipped unless it is a top-level type of this module in the namespace. */
  method AppendIfInNamespace(nodes: seq<Node>, ns: string, aname: string, t: TypeDef) returns (r: seq<Node>)
    ensures r == nodes + (if InNamespace(ns, aname)(t) then [TypeNodeOf(t)] else [])
  {
    r := nodes;
    if t.parentModuleName != aname {
      return;
    }
    if t.namespace == ns {
      var c := BuildTypeNode(t);
      r := r + [c];
    }
  }

  /** The assembly node constructor; None where adding a duplicate name to a sorted list throws. */
  method BuildAssemblyNode(pe: PEFile) returns (r: Option<Node>)
    ensures r == AssemblyNodeOf(pe)
  {
    var refs := FillSortedList(ReferenceNodes(pe));
    if refs.None? {
      return None;
    }
    var modules := FillSortedList(ModuleReferenceNodes(pe));
    if modules.None? {
      return None;
    }
    var resources := FillSortedList(ResourceNodes(pe));
    if resources.None? {
      return None;
    }
    var nodes := refs.value + modules.value + resources.value;
    var namespaces := BuildNamespaceNodes(pe);
    r := Some(Node(AssemblyNode, PETag(pe), nodes + namespaces));
  }

  /** Collects and sorts the namespaces, then builds one node per namespace. */
  method BuildNamespaceNodes(pe: PEFile) returns (namespaces: seq<Node>)
    ensures namespaces == NamespaceNodes(pe)
  {
    var found := CollectNamespaces(pe.types, pe.name);
    var list := SortBy(found, Identity);
    namespaces := [];
    ghost var all := NamespaceNodes(pe);
    for i := 0 to |list|
      invariant list == NamespaceList(pe) && |all| == |list|
      invariant namespaces == all[..i]
    {
      var n := BuildNamespaceNode(list[i], pe.name, pe.types);
      assert n == all[i];
      PrefixSnoc(all, i);
      namespaces := namespaces + [n];
    }
    assert all[..|list|] == all;
  }
}
