/**
 * The "Method Uses" analyzer: for a selected method or constructor, the methods, fields and
 * types its IL body names through a metadata token, each listed once in the order the body
 * first names it, with a running result number, the token and the entity's full name.
 * Activating a row selects the node of the entity it lists (of its property or event, for an
 * accessor) in the assembly tree.
 */
module MethodUses {
  import opened Wrappers
  import opened TypeSystem
  import opened ILReader
  import opened DataTables
  import opened TreeNodes
  import opened TreeViewHelpers
  import MetadataTable

  /** The column an outside search looks in: Symbol. */
  const ExternallySearchableColumn: nat := 2

  /** The three columns, added before the selected node is looked at. */
  const Schema: seq<Column> := [Column("Result", Int32Type), Column("Token", Int32Type), Column("Symbol", StringType)]

  /** The analyzer offers itself only for method and constructor nodes. */
  predicate IsApplicable(node: Option<Node>)
  {
    node.Some? && (node.value.kind == MethodNode || node.value.kind == ConstructorNode)
  }

  /** Exactly the nodes the tree builds for methods and constructors are the ones the analyzer applies to. */
  lemma ApplicableToMethodNodes(m: Method)
    ensures IsApplicable(Some(MethodMemberNode(m)))
    ensures IsApplicable(Some(MethodNodeOf(m))) && IsApplicable(Some(ConstructorNodeOf(m)))
    ensures forall n: Node :: IsApplicable(Some(n)) ==> n.kind == MethodNode || n.kind == ConstructorNode
    ensures !IsApplicable(None)
  {
  }

  /** The tags `IMember` objects produce. */
  predicate IsMemberTag(tag: Tag)
  {
    tag.FieldTag? || tag.EventTag? || tag.PropertyTag? || tag.MethodTag?
  }

  /**
   * `GetAssemblyNode`: the node itself if it is an assembly node, else the same question for
   * its parent; None where the walk runs off a root that is not an assembly node.
   */
  function EnclosingAssembly(forest: seq<Node>, p: Path): (r: Option<Path>)
    requires NodeAt(forest, p).Some?
    ensures r.Some? ==> 0 < |r.value| <= |p| && r.value == p[..|r.value|]
    decreases |p|
  {
    if NodeAt(forest, p).value.kind == AssemblyNode then Some(p)
    else if |p| <= 1 then None
    else
      AncestorsInForest(forest, p, |p| - 2);
      EnclosingAssembly(forest, p[..|p| - 1])
  }

  /**
   * The walk up finds the nearest assembly node among the node and its ancestors, and fails
   * exactly when there is none.
   */
  lemma {:induction false} EnclosingAssemblySpec(forest: seq<Node>, p: Path)
    requires NodeAt(forest, p).Some?
    ensures forall k :: 0 < k <= |p| ==> NodeAt(forest, p[..k]).Some?
    ensures EnclosingAssembly(forest, p).Some? ==>
      NodeAt(forest, EnclosingAssembly(forest, p).value).value.kind == AssemblyNode
    ensures EnclosingAssembly(forest, p).Some? ==>
      forall k :: |EnclosingAssembly(forest, p).value| < k <= |p| ==> NodeAt(forest, p[..k]).value.kind != AssemblyNode
    ensures EnclosingAssembly(forest, p).None? <==>
      forall k :: 0 < k <= |p| ==> NodeAt(forest, p[..k]).value.kind != AssemblyNode
    decreases |p|
  {
    forall k | 0 < k <= |p| ensures NodeAt(forest, p[..k]).Some? {
      AncestorsInForest(forest, p, k - 1);
    }
    assert p[..|p|] == p;
    if NodeAt(forest, p).value.kind == AssemblyNode {
    } else if |p| <= 1 {
    } else {
      var q := p[..|p| - 1];
      AncestorsInForest(forest, p, |p| - 2);
      EnclosingAssemblySpec(forest, q);
      assert forall k :: 0 < k <= |q| ==> q[..k] == p[..k];
    }
  }

  /** Under a root that is an assembly node, as every root of the tree view is, the walk always succeeds. */
  lemma EnclosingAssemblyUnderRoot(forest: seq<Node>, p: Path)
    requires NodeAt(forest, p).Some? && forest[p[0]].kind == AssemblyNode
    ensures EnclosingAssembly(forest, p).Some?
  {
    EnclosingAssemblySpec(forest, p);
    assert NodeAt(forest, p[..1]) == Some(forest[p[0]]);
  }

  /** A row of the analysis: a token the body names and the entity it resolves to. */
  datatype Use = Use(token: nat, entity: Entity)

  /**
   * What one instruction contributes: for the twelve token opcodes, the token and its entity,
   * unless the token is nil or does not resolve; nothing for any other opcode.
   */
  function Hit(i: Instr, resolve: nat -> Option<Entity>): Option<Use>
    requires WellFormed(i)
  {
    if IsTokenOpCode(i.op) then
      var token := TokenOf(i);
      if IsNilToken(token) then None
      else
        match resolve(token)
        case None => None
        case Some(e) => Some(Use(token, e))
    else None
  }

  predicate AllWellFormed(instrs: seq<Instr>)
  {
    forall k :: 0 <= k < |instrs| ==> WellFormed(instrs[k])
  }

  function EntitiesOf(u: seq<Use>): set<Entity>
  {
    set x | x in u :: x.entity
  }

  /** The uses of an instruction sequence: each hit whose entity is not yet listed, in order. */
  function Uses(instrs: seq<Instr>, resolve: nat -> Option<Entity>): (u: seq<Use>)
    requires AllWellFormed(instrs)
    ensures |u| <= |instrs| && TokensFit(u)
    decreases |instrs|
  {
    if |instrs| == 0 then []
    else
      var prev := Uses(instrs[..|instrs| - 1], resolve);
      var h := Hit(instrs[|instrs| - 1], resolve);
      if h.Some? && h.value.entity !in EntitiesOf(prev) then prev + [h.value] else prev
  }

  /** The cells of the `k`-th row: result number, token and full name. */
  function UseRow(k: nat, x: Use): seq<Value>
    requires x.token < 0x1_0000_0000
  {
    [IntValue(WrapInt32(k + 1)), IntValue(ToInt32(x.token)), StrValue(x.entity.fullName)]
  }

  predicate TokensFit(u: seq<Use>)
  {
    forall k :: 0 <= k < |u| ==> u[k].token < 0x1_0000_0000
  }

  function Rows(u: seq<Use>): (rows: seq<seq<Value>>)
    requires TokensFit(u)
    ensures |rows| == |u|
  {
    seq(|u|, k requires 0 <= k < |u| => UseRow(k, u[k]))
  }

  /** The analysis of a node: the table and whether the body was read to its end without an exception. */
  datatype Analysis = Analysis(table: Table, completed: bool)

  /** The properties `SetTable` stores: the file, the MethodDef table's name, the analyzer, and a metadata module. */
  const UsesProperties := (pe: PEFile) => Properties(Some(pe), Some(MetadataTable.MethodDefName), Some(MethodUsesAnalyzer), true)

  /** The rows a method body yields, and whether it decodes to its end. */
  function BodyRows(code: seq<byte>, resolve: nat -> Option<Entity>): (seq<seq<Value>>, bool)
  {
    var d := Decode(code);
    (Rows(Uses(d.instrs, resolve)), d.complete)
  }

  /**
   * `SetTable` as a value: the schema always; for a member node under an assembly node
   * holding a file, the properties that let rows navigate back, and the uses of the method's
   * body. A member that is not a method, or a method whose body cannot be read, throws after
   * the properties are set; so does the walk up when it finds no assembly node.
   */
  function UsesAnalysis(forest: seq<Node>, path: Path, resolve: nat -> Option<Entity>): Analysis
    requires NodeAt(forest, path).Some?
  {
    var node := NodeAt(forest, path).value;
    var empty := Table(Schema, [], NoProperties);
    if !IsMemberKind(node.kind) || !IsMemberTag(node.tag) then Analysis(empty, true)
    else
      match EnclosingAssembly(forest, path)
      case None => Analysis(empty, false)
      case Some(ap) =>
        EnclosingAssemblySpec(forest, path);
        assert ap == path[..|ap|];
        var an := NodeAt(forest, ap).value;
        if !an.tag.PETag? then Analysis(empty, true)
        else
          var props := UsesProperties(an.tag.pe);
          if !node.tag.MethodTag? || node.tag.methodDef.body.None? then Analysis(Table(Schema, [], props), false)
          else
            var (rows, complete) := BodyRows(node.tag.methodDef.body.value, resolve);
            Analysis(Table(Schema, rows, props), complete)
  }

  // ----- the scan -----

  lemma UsesSnoc(done: seq<Instr>, i: Instr, resolve: nat -> Option<Entity>)
    requires AllWellFormed(done) && WellFormed(i)
    ensures AllWellFormed(done + [i])
    ensures Uses(done + [i], resolve) ==
      var h := Hit(i, resolve);
      if h.Some? && h.value.entity !in EntitiesOf(Uses(done, resolve)) then Uses(done, resolve) + [h.value]
      else Uses(done, resolve)
  {
    assert (done + [i])[..|done|] == done;
  }

  lemma RowsSnoc(u: seq<Use>, x: Use)
    requires TokensFit(u) && x.token < 0x1_0000_0000
    ensures TokensFit(u + [x]) && Rows(u + [x]) == Rows(u) + [UseRow(|u|, x)]
  {
  }

  /** The scan's variables after the instructions `done`: the rows, the entities listed, and the next result number. */
  ghost predicate ScanState(done: seq<Instr>, resolve: nat -> Option<Entity>, used: set<Entity>, rows: seq<seq<Value>>, result: nat)
  {
    && AllWellFormed(done)
    && rows == Rows(Uses(done, resolve))
    && used == EntitiesOf(Uses(done, resolve))
    && result == |Uses(done, resolve)| + 1
  }

  /** One pass of the loop body for a decoded instruction. */
  method Record(i: Instr, resolve: nat -> Option<Entity>, ghost done: seq<Instr>, used: set<Entity>, rows: seq<seq<Value>>, result: nat)
    returns (used': set<Entity>, rows': seq<seq<Value>>, result': nat)
    requires WellFormed(i) && ScanState(done, resolve, used, rows, result)
    ensures ScanState(done + [i], resolve, used', rows', result')
  {
    UsesSnoc(done, i, resolve);
    used', rows', result' := used, rows, result;
    if IsTokenOpCode(i.op) {
      var token := TokenOf(i);
      if !IsNilToken(token) {
        var operand := resolve(token);
        if operand.Some? && operand.value !in used {
          used' := used + {operand.value};
          RowsSnoc(Uses(done, resolve), Use(token, operand.value));
          rows' := rows + [UseRow(result - 1, Use(token, operand.value))];
          result' := result + 1;
        }
      }
    }
  }

  /**
   * One turn of the loop: decode one opcode at `pos`; a failed read stops the scan, otherwise
   * the instruction is recorded and the scan moves past its bytes.
   */
  method Advance(code: seq<byte>, pos: nat, resolve: nat -> Option<Entity>, ghost done: seq<Instr>,
                 used: set<Entity>, rows: seq<seq<Value>>, result: nat)
    returns (pos': nat, ok: bool, ghost done': seq<Instr>, used': set<Entity>, rows': seq<seq<Value>>, result': nat)
    requires pos < |code| && Reading(code, pos, done, true) && ScanState(done, resolve, used, rows, result)
    ensures Reading(code, pos', done', ok) && ScanState(done', resolve, used', rows', result')
    ensures if ok then pos < pos' <= |code| else pos' == pos
  {
    var next := DecodeFirst(code[pos..]);
    if next.None? {
      pos', ok, done', used', rows', result' := pos, false, done, used, rows, result;
      ReadingFail(code, pos, done);
    } else {
      pos', done', used', rows', result' := Consume(code, pos, next.value, resolve, done, used, rows, result);
      ok := true;
    }
  }

  /** The successful half of a turn: record the instruction `i` read at `pos` and move past its bytes. */
  method Consume(code: seq<byte>, pos: nat, i: Instr, resolve: nat -> Option<Entity>, ghost done: seq<Instr>,
                 used: set<Entity>, rows: seq<seq<Value>>, result: nat)
    returns (pos': nat, ghost done': seq<Instr>, used': set<Entity>, rows': seq<seq<Value>>, result': nat)
    requires pos < |code| && DecodeFirst(code[pos..]) == Some(i)
    requires Reading(code, pos, done, true) && ScanState(done, resolve, used, rows, result)
    ensures Reading(code, pos', done', true) && ScanState(done', resolve, used', rows', result')
    ensures pos < pos' <= |code|
  {
    pos', done' := pos + |Raw(i)|, done + [i];
    ReadingStep(code, pos, done, i, pos', done');
    used', rows', result' := Record(i, resolve, done, used, rows, result);
  }

  /**
   * The loop over the IL stream: decode one opcode; for a token opcode read the token, skip
   * it when nil, unresolvable or already listed, else list it under the next result number.
   * A read that fails ends the scan as the exception would.
   */
  method ScanBody(code: seq<byte>, resolve: nat -> Option<Entity>) returns (rows: seq<seq<Value>>, complete: bool)
    ensures (rows, complete) == BodyRows(code, resolve)
  {
    var pos := 0;
    var used: set<Entity> := {};
    var result := 1;
    ghost var done: seq<Instr> := [];
    rows := [];
    complete := true;
    ReadingStart(code);
    while pos < |code| && complete
      invariant Reading(code, pos, done, complete)
      invariant ScanState(done, resolve, used, rows, result)
      decreases |code| - pos, complete
    {
      pos, complete, done, used, rows, result := Advance(code, pos, resolve, done, used, rows, result);
    }
    ReadingEnd(code, pos, done, complete);
  }

  /**
   * `SetTable`: the schema first, then the checks on the node, the properties, and the scan
   * of the method's body.
   */
  method SetTable(forest: seq<Node>, path: Path, resolve: nat -> Option<Entity>) returns (r: Analysis)
    requires NodeAt(forest, path).Some?
    ensures r == UsesAnalysis(forest, path, resolve)
  {
    var table := Table(Schema, [], NoProperties);
    var node := NodeAt(forest, path).value;
    if !IsMemberKind(node.kind) || !IsMemberTag(node.tag) {
      return Analysis(table, true);
    }
    var ap := EnclosingAssembly(forest, path);
    if ap.None? {
      return Analysis(table, false);
    }
    EnclosingAssemblySpec(forest, path);
    var an := NodeAt(forest, ap.value).value;
    if !an.tag.PETag? {
      return Analysis(table, true);
    }
    table := table.(properties := UsesProperties(an.tag.pe));
    if !node.tag.MethodTag? || node.tag.methodDef.body.None? {
      return Analysis(table, false);
    }
    var rows, complete := ScanBody(node.tag.methodDef.body.value, resolve);
    r := Analysis(table.(rows := rows), complete);
  }

  // ----- what the analysis promises -----

  /** The schema is set in every case, and a node the analyzer cannot use yields no rows and no properties. */
  lemma SchemaAlways(forest: seq<Node>, path: Path, resolve: nat -> Option<Entity>)
    requires NodeAt(forest, path).Some?
    ensures UsesAnalysis(forest, path, resolve).table.columns == Schema
    ensures WellShaped(UsesAnalysis(forest, path, resolve).table)
    ensures var node := NodeAt(forest, path).value;
      !IsMemberKind(node.kind) || !IsMemberTag(node.tag) ==>
        UsesAnalysis(forest, path, resolve) == Analysis(Table(Schema, [], NoProperties), true)
    ensures var props := UsesAnalysis(forest, path, resolve).table.properties;
      props == NoProperties
      || (&& props.pe.Some? && props.metadata == Some("0x06 MethodDef")
          && props.analyzer == Some(MethodUsesAnalyzer) && props.metadataModule)
    ensures UsesAnalysis(forest, path, resolve).table.rows != [] ==>
      UsesAnalysis(forest, path, resolve).table.properties.metadata == Some("0x06 MethodDef")
  {
  }

  /** No entity is listed twice. */
  lemma {:induction false} UsesDistinct(instrs: seq<Instr>, resolve: nat -> Option<Entity>)
    requires AllWellFormed(instrs)
    ensures forall j, k :: 0 <= j < k < |Uses(instrs, resolve)| ==>
      Uses(instrs, resolve)[j].entity != Uses(instrs, resolve)[k].entity
    decreases |instrs|
  {
    if |instrs| > 0 {
      UsesDistinct(instrs[..|instrs| - 1], resolve);
    }
  }

  /**
   * Every listed use is the hit of some instruction, and no earlier instruction hits the same
   * entity: a row carries the token of the first instruction that names its entity.
   */
  lemma {:induction false} UsesFirst(instrs: seq<Instr>, resolve: nat -> Option<Entity>, k: nat)
    requires AllWellFormed(instrs) && k < |Uses(instrs, resolve)|
    ensures exists m :: FirstHit(instrs, resolve, m, Uses(instrs, resolve)[k])
    decreases |instrs|
  {
    var n := |instrs|;
    var prefix := instrs[..n - 1];
    var u := Uses(prefix, resolve);
    if k < |u| {
      UsesFirst(prefix, resolve, k);
      var m :| FirstHit(prefix, resolve, m, u[k]);
      assert Uses(instrs, resolve)[k] == u[k];
      assert instrs[m] == prefix[m];
      assert forall m' :: 0 <= m' < m ==> instrs[m'] == prefix[m'];
      assert FirstHit(instrs, resolve, m, u[k]);
    } else {
      var x := Uses(instrs, resolve)[k];
      forall m' | 0 <= m' < n - 1 && Hit(instrs[m'], resolve).Some?
        ensures Hit(instrs[m'], resolve).value.entity != x.entity
      {
        assert instrs[m'] == prefix[m'];
        UsesComplete(prefix, resolve, m');
      }
      assert x == Hit(instrs[n - 1], resolve).value;
      assert FirstHit(instrs, resolve, n - 1, x);
    }
  }

  /** Instruction `m` hits `x`, and no earlier instruction hits the same entity. */
  ghost predicate FirstHit(instrs: seq<Instr>, resolve: nat -> Option<Entity>, m: int, x: Use)
    requires AllWellFormed(instrs)
  {
    && 0 <= m < |instrs| && Hit(instrs[m], resolve) == Some(x)
    && forall m' :: 0 <= m' < m ==> Hit(instrs[m'], resolve).None? || Hit(instrs[m'], resolve).value.entity != x.entity
  }

  /** Every instruction that names a resolvable, non-nil token has its entity listed. */
  lemma {:induction false} UsesComplete(instrs: seq<Instr>, resolve: nat -> Option<Entity>, m: nat)
    requires AllWellFormed(instrs) && m < |instrs| && Hit(instrs[m], resolve).Some?
    ensures Hit(instrs[m], resolve).value.entity in EntitiesOf(Uses(instrs, resolve))
    decreases |instrs|
  {
    var n := |instrs|;
    var prefix := instrs[..n - 1];
    if m < n - 1 {
      assert instrs[m] == prefix[m];
      UsesComplete(prefix, resolve, m);
      assert EntitiesOf(Uses(prefix, resolve)) <= EntitiesOf(Uses(instrs, resolve));
    } else {
      var h := Hit(instrs[m], resolve).value;
      if h.entity !in EntitiesOf(Uses(prefix, resolve)) {
        assert Uses(instrs, resolve)[|Uses(instrs, resolve)| - 1] == h;
      }
    }
  }

  /** The instructions of a stream are no more than its bytes. */
  lemma {:induction false} FlattenLength(xs: seq<Instr>)
    ensures |Flatten(xs)| >= |xs|
  {
    if |xs| > 0 {
      FlattenLength(xs[1..]);
    }
  }

  /**
   * The rows of a method body: one per distinct entity the body names, numbered 1, 2, ... in
   * row order (for any body shorter than 2^31 bytes, so the counter cannot wrap), each with
   * the token that first named the entity and the entity's full name.
   */
  lemma BodyRowsSpec(code: seq<byte>, resolve: nat -> Option<Entity>)
    ensures var d := Decode(code);
      var u := Uses(d.instrs, resolve);
      && BodyRows(code, resolve).1 == d.complete
      && |BodyRows(code, resolve).0| == |u|
      && (forall k :: 0 <= k < |u| ==>
            BodyRows(code, resolve).0[k] == [IntValue(WrapInt32(k + 1)), IntValue(ToInt32(u[k].token)), StrValue(u[k].entity.fullName)])
      && (|code| < 0x8000_0000 ==> forall k :: 0 <= k < |u| ==> BodyRows(code, resolve).0[k][0].i == k + 1)
  {
    FlattenLength(Decode(code).instrs);
  }

  // ----- navigating back -----

  /**
   * The entity a row's token resolves to, redirected from an accessor to its property or
   * event; None when the table has no module to resolve in, the cell holds no `int`, or the
   * token does not resolve.
   */
  function ActivationTarget(table: Table, row: nat, resolve: nat -> Option<Entity>): Option<Entity>
    requires row < |table.rows|
  {
    if !table.properties.metadataModule || |table.rows[row]| < 2 || !table.rows[row][1].IntValue? then None
    else
      match resolve(ToUInt32(table.rows[row][1].i))
      case None => None
      case Some(t) => if t.accessorOwner.Some? then Some(t.accessorOwner.value) else Some(t)
  }

  /** The node predicate: a node whose entity has the same file name and the same handle. */
  function Shows(t: Entity): Node -> bool
  {
    (n: Node) => EntityOf(n.tag) == Some(t.id)
  }

  lemma ShowsSpec(t: Entity, n: Node)
    ensures Shows(t)(n) <==>
      (EntityOf(n.tag).Some? && EntityOf(n.tag).value.file == t.id.file &&
       EntityOf(n.tag).value.table == t.id.table && EntityOf(n.tag).value.row == t.id.row)
  {
  }

  lemma ToInt32RoundTrip(u: nat)
    requires u < 0x1_0000_0000
    ensures ToUInt32(ToInt32(u)) == u
  {
  }

  /**
   * Activating a row of a Method Uses table targets the row's entity, or the property or
   * event that owns it when it is an accessor.
   */
  lemma ActivationOfUse(forest: seq<Node>, path: Path, resolve: nat -> Option<Entity>, k: nat)
    requires NodeAt(forest, path).Some?
    requires var a := UsesAnalysis(forest, path, resolve); a.table.properties.metadataModule && k < |a.table.rows|
    ensures var node := NodeAt(forest, path).value;
      && node.tag.MethodTag? && node.tag.methodDef.body.Some?
      && var u := Uses(Decode(node.tag.methodDef.body.value).instrs, resolve);
      && k < |u|
      && ActivationTarget(UsesAnalysis(forest, path, resolve).table, k, resolve) ==
           Some(if u[k].entity.accessorOwner.Some? then u[k].entity.accessorOwner.value else u[k].entity)
  {
    var node := NodeAt(forest, path).value;
    var code := node.tag.methodDef.body.value;
    var u := Uses(Decode(code).instrs, resolve);
    UsesResolve(Decode(code).instrs, resolve, k);
    var t := UsesAnalysis(forest, path, resolve).table;
    assert t == Table(Schema, Rows(u), t.properties);
    UseRowTarget(t.properties, u, k, resolve);
  }

  /** Every listed use carries the entity its token resolves to. */
  lemma UsesResolve(instrs: seq<Instr>, resolve: nat -> Option<Entity>, k: nat)
    requires AllWellFormed(instrs) && k < |Uses(instrs, resolve)|
    ensures resolve(Uses(instrs, resolve)[k].token) == Some(Uses(instrs, resolve)[k].entity)
  {
    UsesFirst(instrs, resolve, k);
  }

  /** Row `k` of a uses table targets the `k`th use's entity, or the owner of that accessor. */
  lemma UseRowTarget(props: Properties, u: seq<Use>, k: nat, resolve: nat -> Option<Entity>)
    requires TokensFit(u) && k < |u| && props.metadataModule
    requires resolve(u[k].token) == Some(u[k].entity)
    ensures ActivationTarget(Table(Schema, Rows(u), props), k, resolve) ==
      Some(if u[k].entity.accessorOwner.Some? then u[k].entity.accessorOwner.value else u[k].entity)
  {
    assert Rows(u)[k] == UseRow(k, u[k]);
    ToInt32RoundTrip(u[k].token);
  }

  /**
   * `OnActivation`: resolve the row's token, move from an accessor to its owner, and select
   * the first node in the tree that shows that entity; nothing happens when the target is
   * missing or no node shows it.
   */
  method OnActivation(view: TreeView, table: Table, row: nat, resolve: nat -> Option<Entity>) returns (r: Option<Path>)
    requires row < |table.rows|
    modifies view
    ensures view.roots == old(view.roots)
    ensures r.Some? ==>
      (ActivationTarget(table, row, resolve).Some? &&
       r == FindIn(view.roots, Shows(ActivationTarget(table, row, resolve).value)) &&
       view.selected == r && view.expanded == old(view.expanded) + Ancestors(r.value))
    ensures r.None? ==> view.expanded == old(view.expanded) && view.selected == old(view.selected)
    ensures ActivationTarget(table, row, resolve).Some? ==>
      (r.None? <==> forall q :: NodeAt(view.roots, q).Some? ==> !Shows(ActivationTarget(table, row, resolve).value)(NodeAt(view.roots, q).value))
  {
    var t := ActivationTarget(table, row, resolve);
    if t.None? {
      return None;
    }
    var found := view.Find(Shows(t.value));
    FindNone(view.roots, Shows(t.value));
    if found.Some? {
      FindSound(view.roots, Shows(t.value));
    }
    r := view.Select(found);
  }
}
