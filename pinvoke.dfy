/**
 * The P/Invoke finder: for a module reference node under an assembly node, the methods of the
 * assembly's own top-level types that import a function from that module (no body, a
 * `MethodDef` token, the `PinvokeImpl` flag and an `ImplMap` entry naming the module), listed
 * by type name and then method name. The analyzer view's `SetTable` writes the full
 * `MethodDef` token in its second column; the table-returning `GetTable` variant writes the
 * row number there, and returns a table without columns when the node does not fit.
 */
module PInvokeFinder {
  import opened Wrappers
  import opened Strings
  import opened Sorting
  import opened TypeSystem
  import opened Formatters
  import opened DataTables
  import opened TreeNodes
  import opened TreeViewHelpers
  import MetadataTable

  const ExternallySearchableColumn: nat := 2

  const FinderSchema: seq<Column> :=
    [Column("Result", Int32Type), Column("Token", Int32Type), Column("Symbol", StringType), Column("P/invoke Method", StringType)]

  const ReferenceSchema: seq<Column> :=
    [Column("Result", Int32Type), Column("RID", Int32Type), Column("Symbol", StringType), Column("P/invoke Method", StringType)]

  /** The analyzer offers itself only for module reference nodes. */
  predicate IsApplicable(node: Option<Node>)
  {
    node.Some? && node.value.kind == ModuleReferenceNode
  }

  /** The analyzer applies to exactly the nodes the tree builds for module references. */
  lemma ApplicableToModuleReferences(h: StringHandle, n: Node)
    ensures IsApplicable(Some(AssemblyNodes.ModuleRefNodeOf(h)))
    ensures IsApplicable(Some(n)) <==> n.kind == ModuleReferenceNode
    ensures !IsApplicable(None)
  {
  }

  /**
   * The file and module reference a node stands for: a module reference node holding a
   * reference, whose parent is an assembly node holding a file.
   */
  function Target(forest: seq<Node>, path: Path): Option<(PEFile, StringHandle)>
    requires NodeAt(forest, path).Some?
  {
    var node := NodeAt(forest, path).value;
    if node.kind != ModuleReferenceNode || !node.tag.ModuleRefTag? || |path| < 2 then None
    else
      AncestorsInForest(forest, path, |path| - 2);
      var an := NodeAt(forest, path[..|path| - 1]).value;
      if an.kind != AssemblyNode || !an.tag.PETag? then None
      else Some((an.tag.pe, node.tag.moduleRef))
  }

  /** The target exists exactly when the node, its parent and their tags have the expected classes. */
  lemma TargetSpec(forest: seq<Node>, path: Path)
    requires NodeAt(forest, path).Some?
    ensures Target(forest, path).Some? <==>
      (&& NodeAt(forest, path).value.kind == ModuleReferenceNode && NodeAt(forest, path).value.tag.ModuleRefTag?
       && Parent(path).Some? && NodeAt(forest, Parent(path).value).Some?
       && NodeAt(forest, Parent(path).value).value.kind == AssemblyNode
       && NodeAt(forest, Parent(path).value).value.tag.PETag?)
    ensures Target(forest, path).Some? ==>
      Target(forest, path).value == (NodeAt(forest, Parent(path).value).value.tag.pe, NodeAt(forest, path).value.tag.moduleRef)
  {
    if |path| >= 2 {
      AncestorsInForest(forest, path, |path| - 2);
    }
  }

  /** A method that imports its function from module reference `mr`. */
  predicate Imports(m: Method, mr: StringHandle)
  {
    !m.hasBody && m.row != 0 && m.pinvokeImpl && m.importModule == mr
  }

  /** A listed method and the type that declares it. */
  datatype Found = Found(owner: TypeDef, imported: Method)

  /** The methods of `t`, in the order `ms` gives them, that import from `mr`. */
  function MethodFinds(t: TypeDef, ms: seq<Method>, mr: StringHandle): (r: seq<Found>)
    ensures forall f :: f in r ==> f.owner == t && f.imported in ms && Imports(f.imported, mr)
    decreases |ms|
  {
    if |ms| == 0 then []
    else
      MethodFinds(t, ms[..|ms| - 1], mr) + (if Imports(ms[|ms| - 1], mr) then [Found(t, ms[|ms| - 1])] else [])
  }

  /** What one type contributes: its importing methods by name, or nothing for a type of another module. */
  function TypeFinds(t: TypeDef, moduleName: string, mr: StringHandle): seq<Found>
  {
    if t.parentModuleName != moduleName then [] else MethodFinds(t, SortBy(t.methods, MethodName), mr)
  }

  function FindsIn(ts: seq<TypeDef>, moduleName: string, mr: StringHandle): (r: seq<Found>)
    ensures forall f :: f in r ==> f.owner in ts && f.owner.parentModuleName == moduleName
    decreases |ts|
  {
    if |ts| == 0 then []
    else
      var r := FindsIn(ts[..|ts| - 1], moduleName, mr) + TypeFinds(ts[|ts| - 1], moduleName, mr);
      assert forall f :: f in TypeFinds(ts[|ts| - 1], moduleName, mr) ==> f.owner == ts[|ts| - 1];
      r
  }

  /** Every import from `mr` in the assembly's own types, by type name and then method name. */
  function Finds(pe: PEFile, mr: StringHandle): seq<Found>
  {
    FindsIn(SortBy(pe.types, TypeDefName), pe.name, mr)
  }

  /** The method label: the type as the formatters write it, a dot, and the method's signature. */
  function MethodText(f: Found): string
  {
    TypeName(TypeDefType(f.owner)) + "." + MethodSignature(f.imported)
  }

  /** A type definition seen as a type. */
  function TypeDefType(t: TypeDef): IType
  {
    Ty(t.kind, t.fullName, t.name)
  }

  /** What the second column holds: the whole token, or the row number alone. */
  datatype Layout = TokenColumn | RidColumn

  function FoundRow(layout: Layout, k: nat, f: Found): seq<Value>
  {
    var second := if layout == TokenColumn then ToInt32(MakeToken(MethodDefTable, f.imported.row)) else f.imported.row;
    [IntValue(WrapInt32(k + 1)), IntValue(second), StrValue(f.imported.importName), StrValue(MethodText(f))]
  }

  function FoundRows(layout: Layout, fs: seq<Found>): (rows: seq<seq<Value>>)
    ensures |rows| == |fs|
  {
    seq(|fs|, k requires 0 <= k < |fs| => FoundRow(layout, k, fs[k]))
  }

  /** The properties both tables store: the file, the ModuleRef table's name and the finder analyzer. */
  const FinderProperties := (pe: PEFile) => Properties(Some(pe), Some(MetadataTable.ModuleRefName), Some(PInvokeFinderAnalyzer), false)

  /** `PInvokeFinder.SetTable` as a value: four columns always, rows only for a fitting node. */
  function FinderTable(forest: seq<Node>, path: Path): Table
    requires NodeAt(forest, path).Some?
  {
    match Target(forest, path)
    case None => Table(FinderSchema, [], NoProperties)
    case Some((pe, mr)) => Table(FinderSchema, FoundRows(TokenColumn, Finds(pe, mr)), FinderProperties(pe))
  }

  /** `ModuleReferenceAnalyzers.GetTable` as a value: no columns at all for a node that does not fit. */
  function ReferenceTable(forest: seq<Node>, path: Path): Table
    requires NodeAt(forest, path).Some?
  {
    match Target(forest, path)
    case None => Table([], [], NoProperties)
    case Some((pe, mr)) => Table(ReferenceSchema, FoundRows(RidColumn, Finds(pe, mr)), FinderProperties(pe))
  }

  // ----- the loops -----

  lemma FindsInSnoc(ts: seq<TypeDef>, i: nat, moduleName: string, mr: StringHandle)
    requires i < |ts|
    ensures FindsIn(ts[..i + 1], moduleName, mr) == FindsIn(ts[..i], moduleName, mr) + TypeFinds(ts[i], moduleName, mr)
  {
    assert ts[..i + 1][..i] == ts[..i];
  }

  lemma MethodFindsSnoc(t: TypeDef, ms: seq<Method>, j: nat, mr: StringHandle)
    requires j < |ms|
    ensures MethodFinds(t, ms[..j + 1], mr) ==
      MethodFinds(t, ms[..j], mr) + (if Imports(ms[j], mr) then [Found(t, ms[j])] else [])
  {
    assert ms[..j + 1][..j] == ms[..j];
  }

  lemma FoundRowsSnoc(layout: Layout, fs: seq<Found>, f: Found)
    ensures FoundRows(layout, fs + [f]) == FoundRows(layout, fs) + [FoundRow(layout, |fs|, f)]
  {
  }

  /** The builder's text for one row: the type, a dot and the method. */
  method ImportText(t: TypeDef, m: Method) returns (text: string)
    ensures text == MethodText(Found(t, m))
  {
    text := AppendType("", TypeDefType(t));
    text := AppendMethod(text + ".", m);
  }

  /** One row: the builder's text, then cleared after the row is added. */
  method ImportRow(layout: Layout, result: nat, t: TypeDef, m: Method) returns (row: seq<Value>)
    requires result >= 1
    ensures row == FoundRow(layout, result - 1, Found(t, m))
  {
    var text := ImportText(t, m);
    var second := if layout == TokenColumn then ToInt32(MakeToken(MethodDefTable, m.row)) else m.row;
    row := [IntValue(WrapInt32(result)), IntValue(second), StrValue(m.importName), StrValue(text)];
  }

  /** The inner loop: the methods of one type, in the order given (by name), each listed when it imports from `mr`. */
  method ListTypeImports(t: TypeDef, methods: seq<Method>, mr: StringHandle, layout: Layout, ghost before: seq<Found>,
                         rows: seq<seq<Value>>, result: nat)
    returns (rows': seq<seq<Value>>, result': nat)
    requires rows == FoundRows(layout, before) && result == |before| + 1
    ensures var found := before + MethodFinds(t, methods, mr);
      rows' == FoundRows(layout, found) && result' == |found| + 1
  {
    rows', result' := rows, result;
    ghost var found := before;
    for j := 0 to |methods|
      invariant found == before + MethodFinds(t, methods[..j], mr)
      invariant rows' == FoundRows(layout, found) && result' == |found| + 1
    {
      MethodFindsSnoc(t, methods, j, mr);
      var m := methods[j];
      if !m.hasBody && m.row != 0 && m.pinvokeImpl && m.importModule == mr {
        var row := ImportRow(layout, result', t, m);
        FoundRowsSnoc(layout, found, Found(t, m));
        rows' := rows' + [row];
        result' := result' + 1;
        found := found + [Found(t, m)];
      }
    }
    assert methods[..|methods|] == methods;
  }

  /** The outer loop: the top-level types by name, skipping types of other modules. */
  method ListImports(pe: PEFile, mr: StringHandle, layout: Layout) returns (rows: seq<seq<Value>>)
    ensures rows == FoundRows(layout, Finds(pe, mr))
  {
    var types := SortBy(pe.types, TypeDefName);
    var result := 1;
    rows := [];
    ghost var found: seq<Found> := [];
    for i := 0 to |types|
      invariant found == FindsIn(types[..i], pe.name, mr)
      invariant rows == FoundRows(layout, found) && result == |found| + 1
    {
      FindsInSnoc(types, i, pe.name, mr);
      var t := types[i];
      if t.parentModuleName == pe.name {
        rows, result := ListTypeImports(t, SortBy(t.methods, MethodName), mr, layout, found, rows, result);
      }
      found := found + TypeFinds(t, pe.name, mr);
    }
    assert types[..|types|] == types;
  }

  /** `PInvokeFinder.SetTable`: the four columns first, then the checks, the properties and the rows. */
  method SetTable(forest: seq<Node>, path: Path) returns (table: Table)
    requires NodeAt(forest, path).Some?
    ensures table == FinderTable(forest, path)
  {
    table := Table(FinderSchema, [], NoProperties);
    var target := Target(forest, path);
    if target.None? {
      return;
    }
    var (pe, mr) := target.value;
    table := table.(properties := FinderProperties(pe));
    var rows := ListImports(pe, mr, TokenColumn);
    table := table.(rows := rows);
  }

  /** `ModuleReferenceAnalyzers.GetTable`: the checks first; the properties and columns only after them. */
  method GetTable(forest: seq<Node>, path: Path) returns (table: Table)
    requires NodeAt(forest, path).Some?
    ensures table == ReferenceTable(forest, path)
  {
    table := Table([], [], NoProperties);
    var target := Target(forest, path);
    if target.None? {
      return;
    }
    var (pe, mr) := target.value;
    table := Table(ReferenceSchema, [], FinderProperties(pe));
    var rows := ListImports(pe, mr, RidColumn);
    table := table.(rows := rows);
  }

  // ----- what the listing promises -----

  /** Exactly the imports from `mr` among a type's methods are listed for it. */
  lemma {:induction false} MethodFindsExact(t: TypeDef, ms: seq<Method>, mr: StringHandle, m: Method)
    ensures Found(t, m) in MethodFinds(t, ms, mr) <==> m in ms && Imports(m, mr)
    decreases |ms|
  {
    if |ms| > 0 {
      MethodFindsExact(t, ms[..|ms| - 1], mr, m);
      assert ms == ms[..|ms| - 1] + [ms[|ms| - 1]];
    }
  }

  /** Within one type the listed methods ascend by name. */
  lemma {:induction false} MethodFindsSorted(t: TypeDef, ms: seq<Method>, mr: StringHandle)
    requires SortedBy(ms, MethodName)
    ensures SortedBy(MethodFinds(t, ms, mr), ImportedName)
    decreases |ms|
  {
    if |ms| > 0 {
      var init := ms[..|ms| - 1];
      var last := ms[|ms| - 1];
      MethodFindsSorted(t, init, mr);
      forall f | f in MethodFinds(t, init, mr) ensures Le(f.imported.name, last.name) {
        var k :| 0 <= k < |init| && init[k] == f.imported;
        assert ms[k] == f.imported;
      }
      var tail := if Imports(last, mr) then [Found(t, last)] else [];
      SortedByAppend(MethodFinds(t, init, mr), tail, ImportedName);
    }
  }

  function ImportedName(f: Found): string { f.imported.name }

  /**
   * A method is listed exactly when it imports from `mr` and a top-level type of the
   * assembly's own module declares it.
   */
  lemma {:induction false} FindsInExact(ts: seq<TypeDef>, moduleName: string, mr: StringHandle, t: TypeDef, m: Method)
    ensures Found(t, m) in FindsIn(ts, moduleName, mr) <==>
      (t in ts && t.parentModuleName == moduleName && m in t.methods && Imports(m, mr))
    decreases |ts|
  {
    if |ts| > 0 {
      var init, last := ts[..|ts| - 1], ts[|ts| - 1];
      FindsInExact(init, moduleName, mr, t, m);
      TypeFindsExact(last, moduleName, mr, t, m);
      assert FindsIn(ts, moduleName, mr) == FindsIn(init, moduleName, mr) + TypeFinds(last, moduleName, mr);
      InInitOrLast(ts, t);
    }
  }

  /** One type lists a method exactly when it is that type, of the module, declaring an import from `mr`. */
  lemma TypeFindsExact(last: TypeDef, moduleName: string, mr: StringHandle, t: TypeDef, m: Method)
    ensures Found(t, m) in TypeFinds(last, moduleName, mr) <==>
      (t == last && t.parentModuleName == moduleName && m in t.methods && Imports(m, mr))
  {
    if last.parentModuleName == moduleName {
      MethodFindsExact(last, SortBy(last.methods, MethodName), mr, m);
      SortByMembers(last.methods, MethodName, m);
    }
  }

  lemma FindsExact(pe: PEFile, mr: StringHandle, t: TypeDef, m: Method)
    ensures Found(t, m) in Finds(pe, mr) <==>
      (t in pe.types && t.parentModuleName == pe.name && m in t.methods && Imports(m, mr))
  {
    FindsInExact(SortBy(pe.types, TypeDefName), pe.name, mr, t, m);
    SortByMembers(pe.types, TypeDefName, t);
  }

  function OwnerName(f: Found): string { f.owner.name }

  /** Rows come in ascending order of their types' names. */
  lemma {:induction false} FindsInTypeOrder(ts: seq<TypeDef>, moduleName: string, mr: StringHandle)
    requires SortedBy(ts, TypeDefName)
    ensures SortedBy(FindsIn(ts, moduleName, mr), OwnerName)
    decreases |ts|
  {
    if |ts| > 0 {
      var init := ts[..|ts| - 1];
      var last := ts[|ts| - 1];
      FindsInTypeOrder(init, moduleName, mr);
      var a := FindsIn(init, moduleName, mr);
      var b := TypeFinds(last, moduleName, mr);
      assert forall f :: f in b ==> f.owner == last;
      forall f | f in a ensures Le(f.owner.name, last.name) {
        var k :| 0 <= k < |init| && init[k] == f.owner;
        assert ts[k] == f.owner;
      }
      LeTotal(last.name, last.name);
      forall i, j | 0 <= i < j < |b| ensures Le(OwnerName(b[i]), OwnerName(b[j])) {
        assert b[i] in b && b[j] in b;
      }
      SortedByAppend(a, b, OwnerName);
    }
  }

  /** Rows with the same type name belong to one type and ascend by method name. */
  ghost predicate NameOrdered(r: seq<Found>)
  {
    forall i, j :: 0 <= i < j < |r| && r[i].owner.name == r[j].owner.name ==>
      r[i].owner == r[j].owner && Le(r[i].imported.name, r[j].imported.name)
  }

  lemma NameOrderedAppend(a: seq<Found>, b: seq<Found>)
    requires NameOrdered(a) && NameOrdered(b)
    requires forall x, y :: x in a && y in b ==> x.owner.name != y.owner.name
    ensures NameOrdered(a + b)
  {
    var r := a + b;
    forall i, j | 0 <= i < j < |r| && r[i].owner.name == r[j].owner.name
      ensures r[i].owner == r[j].owner && Le(r[i].imported.name, r[j].imported.name)
    {
      if j < |a| {
        assert r[i] == a[i] && r[j] == a[j];
      } else if i < |a| {
        assert false;
      } else {
        assert r[i] == b[i - |a|] && r[j] == b[j - |a|];
      }
    }
  }

  /** The methods of one type, sorted by name, are name ordered. */
  lemma OneOwnerNameOrdered(b: seq<Found>, t: TypeDef)
    requires SortedBy(b, ImportedName) && forall f :: f in b ==> f.owner == t
    ensures NameOrdered(b)
  {
    forall i, j | 0 <= i < j < |b| ensures b[i].owner == b[j].owner && Le(ImportedName(b[i]), ImportedName(b[j])) {
      assert b[i] in b && b[j] in b;
    }
  }

  /** When no two own top-level types share a name, rows are in (type name, method name) order. */
  lemma {:induction false} FindsInNameOrder(ts: seq<TypeDef>, moduleName: string, mr: StringHandle)
    requires DistinctKeys(ts, TypeDefName)
    ensures NameOrdered(FindsIn(ts, moduleName, mr))
    decreases |ts|
  {
    if |ts| > 0 {
      var init := ts[..|ts| - 1];
      var last := ts[|ts| - 1];
      assert DistinctKeys(init, TypeDefName);
      FindsInNameOrder(init, moduleName, mr);
      var a := FindsIn(init, moduleName, mr);
      var b := TypeFinds(last, moduleName, mr);
      assert forall f :: f in b ==> f.owner == last;
      forall f | f in a ensures f.owner.name != last.name {
        var k :| 0 <= k < |init| && init[k] == f.owner;
        assert ts[k] == f.owner;
      }
      if last.parentModuleName == moduleName {
        MethodFindsSorted(last, SortBy(last.methods, MethodName), mr);
      }
      OneOwnerNameOrdered(b, last);
      NameOrderedAppend(a, b);
    }
  }

  /** Sorting keeps the keys distinct. */
  lemma SortByDistinctKeys<T>(xs: seq<T>, key: T -> string, order: T -> string)
    requires DistinctKeys(xs, key)
    ensures DistinctKeys(SortBy(xs, order), key)
  {
    var s := SortBy(xs, order);
    assert Distinct(xs);
    SortByDistinct(xs, order);
    forall i, j | 0 <= i < j < |s| ensures key(s[i]) != key(s[j]) {
      assert s[i] in multiset(s) && s[j] in multiset(s);
      assert s[i] in xs && s[j] in xs;
      var a :| 0 <= a < |xs| && xs[a] == s[i];
      var b :| 0 <= b < |xs| && xs[b] == s[j];
    }
  }

  /**
   * The listing: every listed method imports from `mr` and is declared by one of the
   * assembly's own types, and every such method is listed.
   */
  lemma FindsSpec(pe: PEFile, mr: StringHandle)
    ensures forall f :: f in Finds(pe, mr) ==>
      f.owner in pe.types && f.owner.parentModuleName == pe.name && f.imported in f.owner.methods && Imports(f.imported, mr)
    ensures forall t, m :: t in pe.types && t.parentModuleName == pe.name && m in t.methods && Imports(m, mr) ==>
      Found(t, m) in Finds(pe, mr)
  {
    forall f | f in Finds(pe, mr)
      ensures f.owner in pe.types && f.owner.parentModuleName == pe.name && f.imported in f.owner.methods && Imports(f.imported, mr)
    {
      FindsExact(pe, mr, f.owner, f.imported);
    }
    forall t, m | t in pe.types && t.parentModuleName == pe.name && m in t.methods && Imports(m, mr)
      ensures Found(t, m) in Finds(pe, mr)
    {
      FindsExact(pe, mr, t, m);
    }
  }

  /**
   * Rows ascend by type name; when no two top-level types share a name, rows with the same
   * type name belong to one type and ascend by method name.
   */
  lemma FindsOrder(pe: PEFile, mr: StringHandle)
    ensures SortedBy(Finds(pe, mr), OwnerName)
    ensures DistinctKeys(pe.types, TypeDefName) ==> NameOrdered(Finds(pe, mr))
  {
    FindsInTypeOrder(SortBy(pe.types, TypeDefName), pe.name, mr);
    if DistinctKeys(pe.types, TypeDefName) {
      SortByDistinctKeys(pe.types, TypeDefName, TypeDefName);
      FindsInNameOrder(SortBy(pe.types, TypeDefName), pe.name, mr);
    }
  }

  /**
   * The cells of every row: the result numbers count 1, 2, ... (while they fit an `int`), the
   * second column is the `MethodDef` token 0x06000000 + row for the finder and the bare row
   * number for the reference analyzer, then the import name and `Type.Method(...) : R`.
   */
  lemma FoundRowsSpec(layout: Layout, fs: seq<Found>)
    ensures forall k :: 0 <= k < |fs| ==>
      && FoundRows(layout, fs)[k][0] == IntValue(WrapInt32(k + 1))
      && (k < 0x7FFF_FFFF ==> FoundRows(layout, fs)[k][0].i == k + 1)
      && FoundRows(layout, fs)[k][1].i == (if layout == TokenColumn then 0x0600_0000 + fs[k].imported.row else fs[k].imported.row)
      && FoundRows(layout, fs)[k][2] == StrValue(fs[k].imported.importName)
      && FoundRows(layout, fs)[k][3] == StrValue(TypeName(TypeDefType(fs[k].owner)) + "." + MethodSignature(fs[k].imported))
  {
  }

  /** Both tables keep the schema invariants: columns fixed, every row as wide as the columns. */
  lemma TablesSpec(forest: seq<Node>, path: Path)
    requires NodeAt(forest, path).Some?
    ensures FinderTable(forest, path).columns == FinderSchema && WellShaped(FinderTable(forest, path))
    ensures WellShaped(ReferenceTable(forest, path))
    ensures Target(forest, path).None? ==> FinderTable(forest, path).rows == [] && ReferenceTable(forest, path).columns == []
    ensures Target(forest, path).Some? ==>
      && ReferenceTable(forest, path).columns == ReferenceSchema
      && |FinderTable(forest, path).rows| == |ReferenceTable(forest, path).rows|
      && |FinderTable(forest, path).rows| == |Finds(Target(forest, path).value.0, Target(forest, path).value.1)|
    ensures Target(forest, path).None? ==>
      FinderTable(forest, path).properties == NoProperties && ReferenceTable(forest, path).properties == NoProperties
    ensures Target(forest, path).Some? ==>
      var props := Properties(Some(Target(forest, path).value.0), Some("0x1A ModuleRef"), Some(PInvokeFinderAnalyzer), false);
      FinderTable(forest, path).properties == props && ReferenceTable(forest, path).properties == props
  {
  }

  // ----- navigating back -----

  /** `EntityHandle (TableIndex.MethodDef, cell)`: the table number is or-ed into the top byte of the cell. */
  function MethodDefHandle(cell: int32): nat
  {
    var u := ToUInt32(cell);
    (((MethodDefTable as bv8) | ((u / RowLimit) as bv8)) as nat) * RowLimit + u % RowLimit
  }

  /** The node predicate: a member of the same file whose handle is `rid`. */
  function ShowsMember(pe: PEFile, rid: nat): Node -> bool
  {
    (n: Node) => IsMemberTagged(n.tag) && EntityOf(n.tag) == Some(EntityId(Some(pe.fileName), TableOf(rid), RowOf(rid)))
  }

  predicate IsMemberTagged(tag: Tag)
  {
    tag.FieldTag? || tag.EventTag? || tag.PropertyTag? || tag.MethodTag?
  }

  /** The handle activation looks for: None when the table has no file or the cell holds no `int`. */
  function ActivationHandle(table: Table, row: nat): Option<(PEFile, nat)>
    requires row < |table.rows|
  {
    if table.properties.pe.None? || |table.rows[row]| < 2 || !table.rows[row][1].IntValue? then None
    else Some((table.properties.pe.value, MethodDefHandle(table.rows[row][1].i)))
  }

  /** Or-ing the `MethodDef` table number into a `MethodDef` token read back from its cell gives the token. */
  lemma HandleOfToken(row: Row)
    ensures MethodDefHandle(ToInt32(MakeToken(MethodDefTable, row))) == MakeToken(MethodDefTable, row)
  {
    var u := ToUInt32(ToInt32(MakeToken(MethodDefTable, row)));
    assert u == 0x0600_0000 + row as int;
    assert u / RowLimit == 6 && u % RowLimit == row;
  }

  /** Row `k` of a finder table over `fs` activates the `MethodDef` token of the `k`th find. */
  lemma FoundRowHandle(pe: PEFile, fs: seq<Found>, k: nat)
    requires k < |fs|
    ensures ActivationHandle(Table(FinderSchema, FoundRows(TokenColumn, fs), FinderProperties(pe)), k)
      == Some((pe, MakeToken(MethodDefTable, fs[k].imported.row)))
  {
    var t := Table(FinderSchema, FoundRows(TokenColumn, fs), FinderProperties(pe));
    assert t.rows[k] == FoundRow(TokenColumn, k, fs[k]);
    HandleOfToken(fs[k].imported.row);
  }

  /**
   * Activating row `k` of the finder's table looks for the member of the same file whose
   * handle is the listed method's `MethodDef` row: or-ing the table number into a token
   * that already carries it changes nothing.
   */
  lemma ActivationOfFinderRow(forest: seq<Node>, path: Path, k: nat)
    requires NodeAt(forest, path).Some? && k < |FinderTable(forest, path).rows|
    ensures var (pe, mr) := Target(forest, path).value;
      ActivationHandle(FinderTable(forest, path), k) == Some((pe, MakeToken(MethodDefTable, Finds(pe, mr)[k].imported.row)))
  {
    assert Target(forest, path).Some?;
    var (pe, mr) := Target(forest, path).value;
    var fs := Finds(pe, mr);
    assert FinderTable(forest, path) == Table(FinderSchema, FoundRows(TokenColumn, fs), FinderProperties(pe));
    FoundRowHandle(pe, fs, k);
  }

  /** `OnActivation`: select the first node showing the member the row's handle names. */
  method OnActivation(view: TreeView, table: Table, row: nat) returns (r: Option<Path>)
    requires row < |table.rows|
    modifies view
    ensures view.roots == old(view.roots)
    ensures ActivationHandle(table, row).None? ==> r.None? && view.expanded == old(view.expanded) && view.selected == old(view.selected)
    ensures ActivationHandle(table, row).Some? ==>
      var (pe, rid) := ActivationHandle(table, row).value;
      && r == FindIn(view.roots, ShowsMember(pe, rid))
      && (r.None? ==> view.expanded == old(view.expanded) && view.selected == old(view.selected))
      && (r.Some? ==> view.selected == r && view.expanded == old(view.expanded) + Ancestors(r.value))
  {
    var target := ActivationHandle(table, row);
    if target.None? {
      return None;
    }
    var (pe, rid) := target.value;
    var found := view.Find(ShowsMember(pe, rid));
    if found.Some? {
      FindSound(view.roots, ShowsMember(pe, rid));
    }
    r := view.Select(found);
  }
}
