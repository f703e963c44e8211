/**
 * The metadata tree: an assembly node whose children are its assembly references, module
 * references, resources and namespaces; namespaces hold top-level types; a type holds its
 * base types, nested types, fields, events, properties, methods and constructors. Each group
 * is sorted by name, and every node carries a label and the entity it shows (its tag). A
 * node's parent is the node whose children hold it.
 */
module TreeNodes {
  import opened Wrappers
  import opened Strings
  import opened Sorting
  import opened TypeSystem
  import opened Formatters

  /** The node classes. */
  datatype NodeKind =
    | AssemblyNode | AssemblyReferenceNode | ModuleReferenceNode | ResourceNode | NamespaceNode
    | TypeNode | BaseTypeNode | FieldNode | EventNode | PropertyNode | MethodNode | ConstructorNode

  /** What a node's `Tag` holds. */
  datatype Tag =
    | PETag(pe: PEFile)
    | AssemblyRefTag(ar: AssemblyRef)
    | ModuleRefTag(moduleRef: StringHandle)
    | ResourceTag(resource: string)
    | NamespaceTag(ns: string)
    | TypeTag(typeDef: TypeDef)
    | BaseTag(base: BaseType)
    | FieldTag(field: Field)
    | EventTag(event: Event)
    | PropertyTag(property: Property)
    | MethodTag(methodDef: Method)

  /**
   * A node: its class, its tag and its children. Every constructor computes the node's `Text`
   * from its class and tag alone, so the label is the function `Text` below rather than a field.
   */
  datatype Node = Node(kind: NodeKind, tag: Tag, children: seq<Node>)

  /** The kinds derived from `MemberNode`. */
  predicate IsMemberKind(k: NodeKind)
  {
    k in {FieldNode, EventNode, PropertyNode, MethodNode, ConstructorNode}
  }

  /** The name a node is sorted by among its siblings. */
  function NodeName(n: Node): string
  {
    match n.tag
    case PETag(pe) => pe.name
    case AssemblyRefTag(ar) => ar.name.value
    case ModuleRefTag(h) => h.value
    case ResourceTag(name) => name
    case NamespaceTag(ns) => ns
    case TypeTag(t) => t.name
    case BaseTag(b) => b.name
    case FieldTag(f) => f.name
    case EventTag(e) => e.name
    case PropertyTag(p) => p.name
    case MethodTag(m) => m.name
  }

  /** The entity (`IEntity`) a node's tag holds: its module's file name and its handle. */
  function EntityOf(tag: Tag): Option<EntityId>
  {
    match tag
    case TypeTag(t) => Some(EntityId(t.file, TypeDefTable, t.row))
    case BaseTag(b) =>
      if b.definition.Some? then Some(EntityId(b.definition.value.file, TypeDefTable, b.definition.value.row)) else None
    case FieldTag(f) => Some(EntityId(f.file, FieldTable, f.row))
    case EventTag(e) => Some(EntityId(e.file, EventTable, e.row))
    case PropertyTag(p) => Some(EntityId(p.file, PropertyTable, p.row))
    case MethodTag(m) => Some(EntityId(m.file, MethodDefTable, m.row))
    case _ => None
  }

  /** Position of a node's group among its siblings. */
  function Rank(k: NodeKind): nat
  {
    match k
    case AssemblyReferenceNode => 0
    case ModuleReferenceNode => 1
    case ResourceNode => 2
    case NamespaceNode => 3
    case BaseTypeNode => 0
    case TypeNode => 1
    case FieldNode => 2
    case EventNode => 3
    case PropertyNode => 4
    case MethodNode => 5
    case ConstructorNode => 5
    case AssemblyNode => 0
  }

  /** Children grouped by rank, each group in ascending name order. */
  ghost predicate ChildOrder(c: seq<Node>)
  {
    forall i, j :: 0 <= i < j < |c| ==>
      Rank(c[i].kind) < Rank(c[j].kind) || (Rank(c[i].kind) == Rank(c[j].kind) && Le(NodeName(c[i]), NodeName(c[j])))
  }

  /** A group: every node has the same rank and the names ascend. */
  ghost predicate Group(c: seq<Node>, rank: nat)
  {
    (forall n :: n in c ==> Rank(n.kind) == rank) && SortedBy(c, NodeName)
  }

  lemma {:induction false} GroupOrdered(c: seq<Node>, rank: nat)
    requires Group(c, rank)
    ensures ChildOrder(c)
  {
    forall i, j | 0 <= i < j < |c|
      ensures Rank(c[i].kind) == Rank(c[j].kind) && Le(NodeName(c[i]), NodeName(c[j]))
    {
      assert c[i] in c && c[j] in c;
    }
  }

  /** Appending a group of a higher rank keeps the children ordered. */
  lemma {:induction false} OrderedAppend(a: seq<Node>, b: seq<Node>, rank: nat)
    requires ChildOrder(a) && Group(b, rank)
    requires forall n :: n in a ==> Rank(n.kind) < rank
    ensures ChildOrder(a + b)
    ensures forall n :: n in a + b ==> Rank(n.kind) <= rank
  {
    GroupOrdered(b, rank);
    var c := a + b;
    forall i, j | 0 <= i < j < |c|
      ensures Rank(c[i].kind) < Rank(c[j].kind) || (Rank(c[i].kind) == Rank(c[j].kind) && Le(NodeName(c[i]), NodeName(c[j])))
    {
      if j < |a| {
        assert c[i] == a[i] && c[j] == a[j];
      } else if i < |a| {
        assert c[i] in a && c[j] == b[j - |a|] && c[j] in b;
      } else {
        assert c[i] == b[i - |a|] && c[j] == b[j - |a|];
      }
    }
  }

  // ----- filtering a sorted sequence into nodes -----

  /** The nodes `f (x)` for the elements `x` of `xs` that satisfy `p`, in order. */
  function FilterMap<A>(xs: seq<A>, p: A -> bool, f: A -> Node): (r: seq<Node>)
    ensures |r| <= |xs|
    decreases |xs|
  {
    if |xs| == 0 then []
    else FilterMap(xs[..|xs| - 1], p, f) + (if p(xs[|xs| - 1]) then [f(xs[|xs| - 1])] else [])
  }

  /** One more element: its node is appended when it passes the filter. */
  lemma FilterMapStep<A>(xs: seq<A>, i: nat, p: A -> bool, f: A -> Node)
    requires i < |xs|
    ensures FilterMap(xs[..i + 1], p, f) == FilterMap(xs[..i], p, f) + (if p(xs[i]) then [f(xs[i])] else [])
  {
    assert xs[..i + 1][..i] == xs[..i];
  }

  /** Every node produced has a property that holds of the images of the selected elements. */
  lemma {:induction false} FilterMapAll<A>(xs: seq<A>, p: A -> bool, f: A -> Node, P: Node -> bool)
    requires forall x :: x in xs && p(x) ==> P(f(x))
    ensures forall n :: n in FilterMap(xs, p, f) ==> P(n)
    decreases |xs|
  {
    if |xs| > 0 {
      var init := xs[..|xs| - 1];
      assert forall x :: x in init ==> x in xs;
      FilterMapAll(init, p, f, P);
    }
  }

  /** Every selected element's node is produced. */
  lemma {:induction false} FilterMapComplete<A>(xs: seq<A>, p: A -> bool, f: A -> Node)
    ensures forall x :: x in xs && p(x) ==> f(x) in FilterMap(xs, p, f)
    decreases |xs|
  {
    if |xs| > 0 {
      var init := xs[..|xs| - 1];
      assert xs == init + [xs[|xs| - 1]];
      FilterMapComplete(init, p, f);
    }
  }

  /** Every node produced is the image of a selected element. */
  lemma {:induction false} FilterMapFrom<A>(xs: seq<A>, p: A -> bool, f: A -> Node)
    ensures forall n :: n in FilterMap(xs, p, f) ==> exists x :: x in xs && p(x) && n == f(x)
    decreases |xs|
  {
    if |xs| > 0 {
      var init := xs[..|xs| - 1];
      assert forall x :: x in init ==> x in xs;
      FilterMapFrom(init, p, f);
    }
  }

  /** Filtering a sorted sequence into nodes named by the same key keeps the names sorted. */
  lemma {:induction false} FilterMapSorted<A>(xs: seq<A>, p: A -> bool, f: A -> Node, key: A -> string)
    requires SortedBy(xs, key)
    requires forall x :: x in xs ==> NodeName(f(x)) == key(x)
    ensures SortedBy(FilterMap(xs, p, f), NodeName)
    decreases |xs|
  {
    if |xs| > 0 {
      var init := xs[..|xs| - 1];
      var x := xs[|xs| - 1];
      assert xs == init + [x];
      assert SortedBy(init, key) by {
        forall i, j | 0 <= i < j < |init| ensures Le(key(init[i]), key(init[j])) {
          assert init[i] == xs[i] && init[j] == xs[j];
        }
      }
      FilterMapSorted(init, p, f, key);
      var r0 := FilterMap(init, p, f);
      var r := FilterMap(xs, p, f);
      if p(x) {
        forall y | y in init && p(y) ensures Le(NodeName(f(y)), key(x)) {
          var m :| 0 <= m < |init| && init[m] == y;
          assert xs[m] == y;
        }
        FilterMapAll(init, p, f, (n: Node) => Le(NodeName(n), key(x)));
        forall i, j | 0 <= i < j < |r| ensures Le(NodeName(r[i]), NodeName(r[j])) {
          if j == |r| - 1 {
            assert r[i] in r0;
          } else {
            assert r[i] == r0[i] && r[j] == r0[j];
          }
        }
      }
    }
  }

  // ----- labels -----

  function AssemblyLabel(pe: PEFile): string
  {
    "[A] " + pe.name + " (" + pe.version + ")"
  }

  function NamespaceLabel(ns: string): string
  {
    if |ns| == 0 then "[N] -" else "[N] " + ns
  }

  function VariancePrefix(v: Variance): string
  {
    match v
    case Covariant => "out "
    case Contravariant => "in "
    case Invariant => ""
  }

  function TypeParameterText(p: TypeParam): string
  {
    VariancePrefix(p.variance) + p.name
  }

  function TypeParameterTexts(ps: seq<TypeParam>): (r: seq<string>)
    ensures |r| == |ps|
    ensures forall k :: 0 <= k < |ps| ==> r[k] == TypeParameterText(ps[k])
  {
    if |ps| == 0 then [] else TypeParameterTexts(ps[..|ps| - 1]) + [TypeParameterText(ps[|ps| - 1])]
  }

  /** "[T] Name", and for a generic type "<out A, in B, C>" after it. */
  function TypeLabelOf(t: TypeDef): string
  {
    "[T] " + t.name + (if |t.typeParams| > 0 then "<" + Join(TypeParameterTexts(t.typeParams), ", ") + ">" else "")
  }

  /** Appends the name, then the type parameters with their variance, separated by ", ". */
  method TypeLabel(t: TypeDef) returns (s: string)
    ensures s == TypeLabelOf(t)
  {
    var ps := t.typeParams;
    s := "[T] " + t.name;
    if |ps| > 0 {
      ghost var texts := TypeParameterTexts(ps);
      var list := "";
      for i := 0 to |ps|
        invariant list == Join(texts[..i], ", ")
      {
        ghost var before := list;
        if i > 0 {
          list := list + ", ";
        }
        list := list + VariancePrefix(ps[i].variance) + ps[i].name;
        JoinStep(texts, i, ", ", before, VariancePrefix(ps[i].variance), ps[i].name, list);
      }
      assert texts[..|ps|] == texts;
      GenericLabel(t, list);
      s := s + "<" + list + ">";
    }
  }

  lemma GenericLabel(t: TypeDef, list: string)
    requires |t.typeParams| > 0 && list == Join(TypeParameterTexts(t.typeParams), ", ")
    ensures "[T] " + t.name + "<" + list + ">" == TypeLabelOf(t)
  {
  }

  /** A type without type parameters is labelled "[T] Name". */
  lemma TypeLabelNonGeneric(t: TypeDef)
    requires |t.typeParams| == 0
    ensures TypeLabelOf(t) == "[T] " + t.name
  {
  }

  function InstanceCode(k: NodeKind): char
    requires IsMemberKind(k)
  {
    match k
    case FieldNode => 'f'
    case EventNode => 'e'
    case PropertyNode => 'p'
    case MethodNode => 'm'
    case ConstructorNode => 'c'
  }

  function StaticCode(k: NodeKind): char
    requires IsMemberKind(k)
  {
    match k
    case FieldNode => 'F'
    case EventNode => 'E'
    case PropertyNode => 'P'
    case MethodNode => 'M'
    case ConstructorNode => 'C'
  }

  /** The code letter of a member: the static code is the instance code in upper case. */
  function MemberCode(k: NodeKind, isStatic: bool): (c: char)
    requires IsMemberKind(k)
    ensures 'a' <= InstanceCode(k) <= 'z' && StaticCode(k) as int == InstanceCode(k) as int - 32
    ensures c == if isStatic then StaticCode(k) else InstanceCode(k)
  {
    if isStatic then StaticCode(k) else InstanceCode(k)
  }

  /** "[c] Name : Type" for a field, event or property. */
  function MemberLabel(k: NodeKind, isStatic: bool, name: string, ty: IType): string
    requires IsMemberKind(k)
  {
    "[" + [MemberCode(k, isStatic)] + "] " + name + " : " + TypeName(ty)
  }

  function MethodLabel(m: Method): string
  {
    "[" + [MemberCode(MethodNode, m.isStatic)] + "] " + MethodSignature(m)
  }

  /** "[c] DeclaringType(T1,T2)": a constructor shows its declaring type's name and no return type. */
  function ConstructorLabel(m: Method): string
  {
    "[" + [MemberCode(ConstructorNode, m.isStatic)] + "] " + m.declaringTypeName + "(" + Join(TypeNames(m.parameters), ",") + ")"
  }

  method MethodNodeText(m: Method) returns (s: string)
    ensures s == MethodLabel(m)
  {
    s := "[" + [MemberCode(MethodNode, m.isStatic)] + "] ";
    s := AppendMethod(s, m);
  }

  method ConstructorNodeText(m: Method) returns (s: string)
    ensures s == ConstructorLabel(m)
  {
    s := "[" + [MemberCode(ConstructorNode, m.isStatic)] + "] " + m.declaringTypeName + "(";
    s := AppendParameters(s, m.parameters);
    s := s + ")";
  }

  /** "[b] Name" for a base type, "[i] Name" when its definition is an interface. */
  function BaseTypeLabel(b: BaseType): string
  {
    var isInterface := b.definition.Some? && b.definition.value.kind == Interface;
    (if isInterface then "[i] " else "[b] ") + b.name
  }

  /** The `Text` each node constructor computes from the node's class and tag. */
  function Text(n: Node): string
  {
    match n.tag
    case PETag(pe) => AssemblyLabel(pe)
    case AssemblyRefTag(ar) => "[R] " + ar.name.value
    case ModuleRefTag(h) => "[r] " + h.value
    case ResourceTag(name) => "[s] " + name
    case NamespaceTag(ns) => NamespaceLabel(ns)
    case TypeTag(t) => TypeLabelOf(t)
    case BaseTag(b) => BaseTypeLabel(b)
    case FieldTag(f) => MemberLabel(FieldNode, f.isStatic, f.name, f.fieldType)
    case EventTag(e) => MemberLabel(EventNode, e.isStatic, e.name, e.eventType)
    case PropertyTag(p) => MemberLabel(PropertyNode, p.isStatic, p.name, p.propertyType)
    case MethodTag(m) => if n.kind == ConstructorNode then ConstructorLabel(m) else MethodLabel(m)
  }

  // ----- leaf and member nodes -----

  function MethodNodeOf(m: Method): Node
  {
    Node(MethodNode, MethodTag(m), [])
  }

  function ConstructorNodeOf(m: Method): Node
  {
    Node(ConstructorNode, MethodTag(m), [])
  }

  /** A type's method with a token becomes a constructor node or a method node. */
  function MethodMemberNode(m: Method): Node
  {
    if m.isConstructor then ConstructorNodeOf(m) else MethodNodeOf(m)
  }

  function FieldNodeOf(f: Field): Node
  {
    Node(FieldNode, FieldTag(f), [])
  }

  /** The method node of an accessor that is present; nothing otherwise. */
  function AccessorNode(a: Option<Method>): seq<Node>
  {
    if a.Some? then [MethodNodeOf(a.value)] else []
  }

  /** An event's children: its add, remove and invoke accessors, in that order, each only when present. */
  function EventNodeOf(e: Event): Node
  {
    Node(EventNode, EventTag(e),
         AccessorNode(e.addAccessor) + AccessorNode(e.removeAccessor) + AccessorNode(e.invokeAccessor))
  }

  /** A property's children: its getter then its setter, each only when present. */
  function PropertyNodeOf(p: Property): Node
  {
    Node(PropertyNode, PropertyTag(p),
         AccessorNode(p.getter) + AccessorNode(p.setter))
  }

  function BaseTypeNodeOf(b: BaseType): Node
  {
    Node(BaseTypeNode, BaseTag(b), [])
  }

  /** Which base types a type of this kind lists: for an interface only interfaces, and only those with a definition. */
  function ListedBase(k: TypeKind): BaseType -> bool
  {
    (b: BaseType) => (k != Interface || k == b.kind) && b.definition.Some?
  }

  function HasToken(m: Method): bool { m.row != 0 }

  function Keep<A>(x: A): bool { true }

  function BaseName(b: BaseType): string { b.name }
  function TypeDefName(t: TypeDef): string { t.name }
  function FieldName(f: Field): string { f.name }
  function EventName(e: Event): string { e.name }
  function PropertyName(p: Property): string { p.name }
  function MethodName(m: Method): string { m.name }

  // ----- type nodes -----

  /** The node of a type definition and, recursively, of its nested types. */
  function TypeNodeOf(t: TypeDef): (r: Node)
    ensures r.kind == TypeNode && r.tag == TypeTag(t)
    decreases t, 3, 0
  {
    Node(TypeNode, TypeTag(t), TypeChildren(t))
  }

  /** Bases, nested types, fields, events, properties, then methods. */
  function TypeChildren(t: TypeDef): seq<Node>
    decreases t, 2, 0
  {
    BaseGroup(t) + NestedGroup(t) + FieldGroup(t) + EventGroup(t) + PropertyGroup(t) + MethodGroup(t)
  }

  function BaseGroup(t: TypeDef): seq<Node>
  {
    FilterMap(SortBy(t.bases, BaseName), ListedBase(t.kind), BaseTypeNodeOf)
  }

  function NestedGroup(t: TypeDef): seq<Node>
    decreases t, 1, 0
  {
    var nested := SortBy(t.nested, TypeDefName);
    SortBySameElements(t.nested, TypeDefName);
    NestedNodes(t, nested, |nested|)
  }

  /** The nodes of the first `n` of the given nested types, in the order given. */
  function NestedNodes(t: TypeDef, ts: seq<TypeDef>, n: nat): (r: seq<Node>)
    requires n <= |ts| && forall k :: 0 <= k < |ts| ==> ts[k] in t.nested
    ensures |r| == n
    ensures forall k :: 0 <= k < n ==> r[k].kind == TypeNode && r[k].tag == TypeTag(ts[k])
    decreases t, 0, n
  {
    if n == 0 then []
    else
      assert ts[n - 1] in t.nested;
      NestedNodes(t, ts, n - 1) + [TypeNodeOf(ts[n - 1])]
  }

  function FieldGroup(t: TypeDef): seq<Node>
  {
    FilterMap(SortBy(t.fields, FieldName), Keep, FieldNodeOf)
  }

  function EventGroup(t: TypeDef): seq<Node>
  {
    FilterMap(SortBy(t.events, EventName), Keep, EventNodeOf)
  }

  function PropertyGroup(t: TypeDef): seq<Node>
  {
    FilterMap(SortBy(t.properties, PropertyName), Keep, PropertyNodeOf)
  }

  function MethodGroup(t: TypeDef): seq<Node>
  {
    FilterMap(SortBy(t.methods, MethodName), HasToken, MethodMemberNode)
  }

  /** Each element's node is named by the element's key. */
  ghost predicate NamedBy<A>(xs: seq<A>, key: A -> string, f: A -> Node)
  {
    forall x :: x in xs ==> NodeName(f(x)) == key(x)
  }

  /** Each selected element's node has one of the given kinds. */
  ghost predicate KindsBy<A>(xs: seq<A>, p: A -> bool, f: A -> Node, kinds: set<NodeKind>)
  {
    forall x :: x in xs && p(x) ==> f(x).kind in kinds
  }

  /** A type's node is named by the type's name. */
  lemma TypesNamed(ts: seq<TypeDef>)
    ensures NamedBy(ts, TypeDefName, TypeNodeOf)
  {
    forall x | x in ts ensures NodeName(TypeNodeOf(x)) == TypeDefName(x) {
      TypeNodeNamed(x);
    }
  }

  lemma TypeNodeNamed(t: TypeDef)
    ensures NodeName(TypeNodeOf(t)) == t.name
  {
    var n := TypeNodeOf(t);
    assert n.tag == TypeTag(t);
  }

  lemma BasesLabelled(t: TypeDef)
    ensures NamedBy(t.bases, BaseName, BaseTypeNodeOf)
    ensures KindsBy(t.bases, ListedBase(t.kind), BaseTypeNodeOf, {BaseTypeNode})
  {
  }

  lemma FieldsLabelled(xs: seq<Field>)
    ensures NamedBy(xs, FieldName, FieldNodeOf) && KindsBy(xs, Keep, FieldNodeOf, {FieldNode})
  {
  }

  lemma EventsLabelled(xs: seq<Event>)
    ensures NamedBy(xs, EventName, EventNodeOf) && KindsBy(xs, Keep, EventNodeOf, {EventNode})
  {
  }

  lemma PropertiesLabelled(xs: seq<Property>)
    ensures NamedBy(xs, PropertyName, PropertyNodeOf) && KindsBy(xs, Keep, PropertyNodeOf, {PropertyNode})
  {
  }

  lemma MethodsLabelled(xs: seq<Method>)
    ensures NamedBy(xs, MethodName, MethodMemberNode)
    ensures KindsBy(xs, HasToken, MethodMemberNode, {MethodNode, ConstructorNode})
  {
  }

  /** Every node of `g` is the node of a selected element of `xs`. */
  ghost predicate From<A>(g: seq<Node>, xs: seq<A>, p: A -> bool, f: A -> Node)
  {
    forall n :: n in g ==> exists x :: x in xs && p(x) && n == f(x)
  }

  /** Sorting by a key that is also the node's name, then filtering, gives nodes in name order. */
  lemma SortedFilterMap<A>(xs: seq<A>, key: A -> string, p: A -> bool, f: A -> Node)
    requires NamedBy(xs, key, f)
    ensures SortedBy(FilterMap(SortBy(xs, key), p, f), NodeName)
  {
    var sorted := SortBy(xs, key);
    forall x | x in sorted ensures x in xs {
      assert x in multiset(sorted);
    }
    FilterMapSorted(sorted, p, f, key);
  }

  /** When, besides, every selected element's node has a kind of one rank, the nodes form a group of that rank. */
  lemma SortedGroup<A>(xs: seq<A>, key: A -> string, p: A -> bool, f: A -> Node, kinds: set<NodeKind>, rank: nat)
    requires NamedBy(xs, key, f) && KindsBy(xs, p, f, kinds)
    requires forall k :: k in kinds ==> Rank(k) == rank
    ensures Group(FilterMap(SortBy(xs, key), p, f), rank)
  {
    SortedFilterMap(xs, key, p, f);
    SortedGroupFrom(xs, key, p, f);
    forall n | n in FilterMap(SortBy(xs, key), p, f) ensures Rank(n.kind) == rank {
      var x :| x in xs && p(x) && n == f(x);
    }
  }

  /** Every node of the sorted, filtered group is the node of a selected element. */
  lemma SortedGroupFrom<A>(xs: seq<A>, key: A -> string, p: A -> bool, f: A -> Node)
    ensures From(FilterMap(SortBy(xs, key), p, f), xs, p, f)
  {
    var sorted := SortBy(xs, key);
    forall x | x in sorted ensures x in xs {
      assert x in multiset(sorted);
    }
    FilterMapFrom(sorted, p, f);
  }

  /** Every selected element's node is among the sorted, filtered nodes. */
  lemma SortedGroupComplete<A>(xs: seq<A>, key: A -> string, p: A -> bool, f: A -> Node)
    ensures forall x :: x in xs && p(x) ==> f(x) in FilterMap(SortBy(xs, key), p, f)
  {
    var sorted := SortBy(xs, key);
    forall x | x in xs && p(x) ensures x in sorted {
      assert x in multiset(xs);
    }
    FilterMapComplete(sorted, p, f);
  }

  /** The base types listed are in name order. */
  lemma BaseGroupOrdered(t: TypeDef)
    ensures Group(BaseGroup(t), 0)
  {
    BasesLabelled(t);
    SortedGroup(t.bases, BaseName, ListedBase(t.kind), BaseTypeNodeOf, {BaseTypeNode}, 0);
  }

  /** Only base types with a definition are listed, and for an interface only interfaces. */
  lemma BaseGroupFrom(t: TypeDef)
    ensures forall n :: n in BaseGroup(t) ==>
      && n.kind == BaseTypeNode && n.tag.BaseTag? && n.tag.base in t.bases
      && n.tag.base.definition.Some? && (t.kind == Interface ==> n.tag.base.kind == Interface)
  {
    SortedGroupFrom(t.bases, BaseName, ListedBase(t.kind), BaseTypeNodeOf);
    BaseNodesFrom(BaseGroup(t), t);
  }

  lemma BaseNodesFrom(g: seq<Node>, t: TypeDef)
    requires From(g, t.bases, ListedBase(t.kind), BaseTypeNodeOf)
    ensures forall n :: n in g ==>
      && n.kind == BaseTypeNode && n.tag.BaseTag? && n.tag.base in t.bases
      && n.tag.base.definition.Some? && (t.kind == Interface ==> n.tag.base.kind == Interface)
  {
    forall n | n in g
      ensures && n.kind == BaseTypeNode && n.tag.BaseTag? && n.tag.base in t.bases
              && n.tag.base.definition.Some? && (t.kind == Interface ==> n.tag.base.kind == Interface)
    {
      var b :| b in t.bases && ListedBase(t.kind)(b) && n == BaseTypeNodeOf(b);
    }
  }

  /** A node for the base types listed. */
  lemma BaseGroupComplete(t: TypeDef)
    ensures forall b :: b in t.bases && ListedBase(t.kind)(b) ==> BaseTypeNodeOf(b) in BaseGroup(t)
  {
    SortedGroupComplete(t.bases, BaseName, ListedBase(t.kind), BaseTypeNodeOf);
  }

  /** One node per nested type, in name order. */
  lemma NestedGroupFacts(t: TypeDef)
    ensures Group(NestedGroup(t), 1)
    ensures |NestedGroup(t)| == |t.nested|
    ensures forall n :: n in NestedGroup(t) ==> n.kind == TypeNode && n.tag.TypeTag? && n.tag.typeDef in t.nested
  {
    var nested := SortBy(t.nested, TypeDefName);
    SortBySameElements(t.nested, TypeDefName);
    TypeNodesGroup(NestedNodes(t, nested, |nested|), nested, t.nested);
  }

  /** Nodes tagged with types listed in name order are a group of rank 1 over those types. */
  lemma TypeNodesGroup(r: seq<Node>, ts: seq<TypeDef>, among: seq<TypeDef>)
    requires |r| == |ts| && SortedBy(ts, TypeDefName)
    requires forall k :: 0 <= k < |ts| ==> r[k].kind == TypeNode && r[k].tag == TypeTag(ts[k]) && ts[k] in among
    ensures Group(r, 1)
    ensures forall n :: n in r ==> n.kind == TypeNode && n.tag.TypeTag? && n.tag.typeDef in among
  {
    forall n | n in r ensures n.kind == TypeNode && n.tag.TypeTag? && n.tag.typeDef in among {
      var k :| 0 <= k < |r| && r[k] == n;
    }
    forall i, j | 0 <= i < j < |r| ensures Le(NodeName(r[i]), NodeName(r[j])) {
      assert NodeName(r[i]) == TypeDefName(ts[i]) && NodeName(r[j]) == TypeDefName(ts[j]);
    }
  }

  /** The field nodes are in name order. */
  lemma FieldGroupOrdered(t: TypeDef)
    ensures Group(FieldGroup(t), 2)
  {
    FieldsLabelled(t.fields);
    SortedGroup(t.fields, FieldName, Keep, FieldNodeOf, {FieldNode}, 2);
  }

  /** Every field node is the node of one of the type's fields. */
  lemma FieldGroupFrom(t: TypeDef)
    ensures forall n :: n in FieldGroup(t) ==> n.kind == FieldNode && n.tag.FieldTag? && n.tag.field in t.fields
  {
    SortedGroupFrom(t.fields, FieldName, Keep, FieldNodeOf);
    FieldNodesFrom(FieldGroup(t), t.fields);
  }

  lemma FieldNodesFrom(g: seq<Node>, xs: seq<Field>)
    requires From(g, xs, Keep, FieldNodeOf)
    ensures forall n :: n in g ==> n.kind == FieldNode && n.tag.FieldTag? && n.tag.field in xs
  {
    forall n | n in g ensures n.kind == FieldNode && n.tag.FieldTag? && n.tag.field in xs {
      var x :| x in xs && Keep(x) && n == FieldNodeOf(x);
    }
  }

  /** A node for every field. */
  lemma FieldGroupComplete(t: TypeDef)
    ensures forall f :: f in t.fields ==> FieldNodeOf(f) in FieldGroup(t)
  {
    SortedGroupComplete(t.fields, FieldName, Keep, FieldNodeOf);
  }

  /** The event nodes are in name order. */
  lemma EventGroupOrdered(t: TypeDef)
    ensures Group(EventGroup(t), 3)
  {
    EventsLabelled(t.events);
    SortedGroup(t.events, EventName, Keep, EventNodeOf, {EventNode}, 3);
  }

  /** Every event node is the node of one of the type's events. */
  lemma EventGroupFrom(t: TypeDef)
    ensures forall n :: n in EventGroup(t) ==> n.kind == EventNode && n.tag.EventTag? && n.tag.event in t.events
  {
    SortedGroupFrom(t.events, EventName, Keep, EventNodeOf);
    EventNodesFrom(EventGroup(t), t.events);
  }

  lemma EventNodesFrom(g: seq<Node>, xs: seq<Event>)
    requires From(g, xs, Keep, EventNodeOf)
    ensures forall n :: n in g ==> n.kind == EventNode && n.tag.EventTag? && n.tag.event in xs
  {
    forall n | n in g ensures n.kind == EventNode && n.tag.EventTag? && n.tag.event in xs {
      var x :| x in xs && Keep(x) && n == EventNodeOf(x);
    }
  }

  /** A node for every event. */
  lemma EventGroupComplete(t: TypeDef)
    ensures forall e :: e in t.events ==> EventNodeOf(e) in EventGroup(t)
  {
    SortedGroupComplete(t.events, EventName, Keep, EventNodeOf);
  }

  /** The property nodes are in name order. */
  lemma PropertyGroupOrdered(t: TypeDef)
    ensures Group(PropertyGroup(t), 4)
  {
    PropertiesLabelled(t.properties);
    SortedGroup(t.properties, PropertyName, Keep, PropertyNodeOf, {PropertyNode}, 4);
  }

  /** Every property node is the node of one of the type's properties. */
  lemma PropertyGroupFrom(t: TypeDef)
    ensures forall n :: n in PropertyGroup(t) ==> n.kind == PropertyNode && n.tag.PropertyTag? && n.tag.property in t.properties
  {
    SortedGroupFrom(t.properties, PropertyName, Keep, PropertyNodeOf);
    PropertyNodesFrom(PropertyGroup(t), t.properties);
  }

  lemma PropertyNodesFrom(g: seq<Node>, xs: seq<Property>)
    requires From(g, xs, Keep, PropertyNodeOf)
    ensures forall n :: n in g ==> n.kind == PropertyNode && n.tag.PropertyTag? && n.tag.property in xs
  {
    forall n | n in g ensures n.kind == PropertyNode && n.tag.PropertyTag? && n.tag.property in xs {
      var x :| x in xs && Keep(x) && n == PropertyNodeOf(x);
    }
  }

  /** A node for every property. */
  lemma PropertyGroupComplete(t: TypeDef)
    ensures forall p :: p in t.properties ==> PropertyNodeOf(p) in PropertyGroup(t)
  {
    SortedGroupComplete(t.properties, PropertyName, Keep, PropertyNodeOf);
  }

  /** The method and constructor nodes are in name order. */
  lemma MethodGroupOrdered(t: TypeDef)
    ensures Group(MethodGroup(t), 5)
  {
    MethodsLabelled(t.methods);
    SortedGroup(t.methods, MethodName, HasToken, MethodMemberNode, {MethodNode, ConstructorNode}, 5);
  }

  /**
   * Only methods with a non-nil token get a node, and it is a constructor node exactly when the
   * method is a constructor.
   */
  lemma MethodGroupFrom(t: TypeDef)
    ensures forall n :: n in MethodGroup(t) ==>
      && n.kind in {MethodNode, ConstructorNode} && n.tag.MethodTag?
      && n.tag.methodDef in t.methods && n.tag.methodDef.row != 0
      && (n.kind == ConstructorNode <==> n.tag.methodDef.isConstructor)
  {
    SortedGroupFrom(t.methods, MethodName, HasToken, MethodMemberNode);
    MethodNodesFrom(MethodGroup(t), t.methods);
  }

  lemma MethodNodesFrom(g: seq<Node>, xs: seq<Method>)
    requires From(g, xs, HasToken, MethodMemberNode)
    ensures forall n :: n in g ==>
      && n.kind in {MethodNode, ConstructorNode} && n.tag.MethodTag?
      && n.tag.methodDef in xs && n.tag.methodDef.row != 0
      && (n.kind == ConstructorNode <==> n.tag.methodDef.isConstructor)
  {
    forall n | n in g
      ensures && n.kind in {MethodNode, ConstructorNode} && n.tag.MethodTag?
              && n.tag.methodDef in xs && n.tag.methodDef.row != 0
              && (n.kind == ConstructorNode <==> n.tag.methodDef.isConstructor)
    {
      var m :| m in xs && HasToken(m) && n == MethodMemberNode(m);
    }
  }

  /** A node for every method with a non-nil token. */
  lemma MethodGroupComplete(t: TypeDef)
    ensures forall m :: m in t.methods && m.row != 0 ==> MethodMemberNode(m) in MethodGroup(t)
  {
    SortedGroupComplete(t.methods, MethodName, HasToken, MethodMemberNode);
  }

  /** Six groups of ranks 0 to 5, one after the other, are in child order. */
  lemma {:induction false} SixGroupsOrdered(g0: seq<Node>, g1: seq<Node>, g2: seq<Node>, g3: seq<Node>, g4: seq<Node>, g5: seq<Node>)
    requires Group(g0, 0) && Group(g1, 1) && Group(g2, 2) && Group(g3, 3) && Group(g4, 4) && Group(g5, 5)
    ensures ChildOrder(g0 + g1 + g2 + g3 + g4 + g5)
  {
    GroupOrdered(g0, 0);
    OrderedAppend(g0, g1, 1);
    OrderedAppend(g0 + g1, g2, 2);
    OrderedAppend(g0 + g1 + g2, g3, 3);
    OrderedAppend(g0 + g1 + g2 + g3, g4, 4);
    OrderedAppend(g0 + g1 + g2 + g3 + g4, g5, 5);
  }

  /**
   * A type's children come in the groups bases, nested types, fields, events, properties and
   * methods, each in ascending name order.
   */
  lemma TypeChildrenOrdered(t: TypeDef)
    ensures ChildOrder(TypeNodeOf(t).children)
  {
    BaseGroupOrdered(t);
    NestedGroupFacts(t);
    FieldGroupOrdered(t);
    EventGroupOrdered(t);
    PropertyGroupOrdered(t);
    MethodGroupOrdered(t);
    SixGroupsOrdered(BaseGroup(t), NestedGroup(t), FieldGroup(t), EventGroup(t), PropertyGroup(t), MethodGroup(t));
  }

  /** Appends, in order, the nodes of the elements that pass the filter. */
  method AppendFiltered<A>(nodes: seq<Node>, xs: seq<A>, p: A -> bool, f: A -> Node) returns (r: seq<Node>)
    ensures r == nodes + FilterMap(xs, p, f)
  {
    r := nodes;
    for k := 0 to |xs|
      invariant r == nodes + FilterMap(xs[..k], p, f)
    {
      assert xs[..k + 1][..k] == xs[..k];
      if p(xs[k]) {
        r := r + [f(xs[k])];
      }
    }
    assert xs[..|xs|] == xs;
  }

  /** The base types in name order, skipping those not listed. */
  method AppendBases(nodes: seq<Node>, t: TypeDef) returns (r: seq<Node>)
    ensures r == nodes + BaseGroup(t)
  {
    r := AppendFiltered(nodes, SortBy(t.bases, BaseName), ListedBase(t.kind), BaseTypeNodeOf);
  }

  method AppendFields(nodes: seq<Node>, t: TypeDef) returns (r: seq<Node>)
    ensures r == nodes + FieldGroup(t)
  {
    r := AppendFiltered(nodes, SortBy(t.fields, FieldName), Keep, FieldNodeOf);
  }

  method AppendEvents(nodes: seq<Node>, t: TypeDef) returns (r: seq<Node>)
    ensures r == nodes + EventGroup(t)
  {
    r := AppendFiltered(nodes, SortBy(t.events, EventName), Keep, EventNodeOf);
  }

  method AppendProperties(nodes: seq<Node>, t: TypeDef) returns (r: seq<Node>)
    ensures r == nodes + PropertyGroup(t)
  {
    r := AppendFiltered(nodes, SortBy(t.properties, PropertyName), Keep, PropertyNodeOf);
  }

  /** Appends the nodes of the nested types, in name order. */
  method AppendNested(nodes: seq<Node>, t: TypeDef) returns (r: seq<Node>)
    ensures r == nodes + NestedGroup(t)
    decreases t, 1
  {
    var nested := SortBy(t.nested, TypeDefName);
    SortBySameElements(t.nested, TypeDefName);
    r := AppendTypeNodes(nodes, t, nested);
  }

  /** Appends the nodes of the given nested types of `t`, building each recursively. */
  method AppendTypeNodes(nodes: seq<Node>, t: TypeDef, ts: seq<TypeDef>) returns (r: seq<Node>)
    requires forall i :: 0 <= i < |ts| ==> ts[i] in t.nested
    ensures r == nodes + NestedNodes(t, ts, |ts|)
    decreases t, 0
  {
    r := nodes;
    for k := 0 to |ts|
      invariant r == nodes + NestedNodes(t, ts, k)
    {
      assert ts[k] in t.nested;
      var c := BuildTypeNode(ts[k]);
      NestedNodesStep(nodes, t, ts, k);
      r := r + [c];
    }
  }

  lemma NestedNodesStep(nodes: seq<Node>, t: TypeDef, ts: seq<TypeDef>, k: nat)
    requires k < |ts| && forall i :: 0 <= i < |ts| ==> ts[i] in t.nested
    ensures nodes + NestedNodes(t, ts, k) + [TypeNodeOf(ts[k])] == nodes + NestedNodes(t, ts, k + 1)
  {
    assert ts[k] in t.nested;
    ConcatSnoc(nodes, NestedNodes(t, ts, k), NestedNodes(t, ts, k + 1), TypeNodeOf(ts[k]));
  }

  lemma ConcatSnoc<T>(a: seq<T>, b: seq<T>, b': seq<T>, x: T)
    requires b' == b + [x]
    ensures a + b + [x] == a + b'
  {
  }

  /** Appends the method and constructor nodes in name order. */
  method AppendMethods(nodes: seq<Node>, t: TypeDef) returns (r: seq<Node>)
    ensures r == nodes + MethodGroup(t)
  {
    r := AppendMethodNodes(nodes, SortBy(t.methods, MethodName));
  }

  /** Appends a node per method, a constructor node for a constructor, skipping methods with a nil token. */
  method AppendMethodNodes(nodes: seq<Node>, ms: seq<Method>) returns (r: seq<Node>)
    ensures r == nodes + FilterMap(ms, HasToken, MethodMemberNode)
  {
    r := nodes;
    for k := 0 to |ms|
      invariant r == nodes + FilterMap(ms[..k], HasToken, MethodMemberNode)
    {
      var m := ms[k];
      assert ms[..k + 1][..k] == ms[..k];
      if m.row != 0 {  // a nil token, e.g. a struct's default constructor, gets no node
        if m.isConstructor {
          r := r + [Node(ConstructorNode, MethodTag(m), [])];
        } else {
          r := r + [Node(MethodNode, MethodTag(m), [])];
        }
      }
    }
    assert ms[..|ms|] == ms;
  }

  /** The type node constructor: each group of children in turn. */
  method BuildTypeNode(t: TypeDef) returns (n: Node)
    ensures n == TypeNodeOf(t)
    decreases t, 2
  {
    var nodes := AppendBases([], t);
    assert nodes == BaseGroup(t);
    nodes := AppendNested(nodes, t);
    assert nodes == BaseGroup(t) + NestedGroup(t);
    nodes := AppendFields(nodes, t);
    nodes := AppendEvents(nodes, t);
    nodes := AppendProperties(nodes, t);
    nodes := AppendMethods(nodes, t);
    assert nodes == TypeChildren(t);
    n := Node(TypeNode, TypeTag(t), nodes);
  }
}
