/**
 * The metadata table views (MetadataTables/MetadataTable.cs). Each builder lists one table of
 * ECMA-335 Partition II, section 22, as a `DataTable` whose first column is the row number
 * ("RID") and whose second is the row's token in eight lowercase hex digits; the other cells
 * render heap references (strings and blobs), flags enums and coded tokens as text.
 */
module MetadataTable {
  import opened Wrappers
  import opened HexFormat
  import opened Strings
  import opened TypeSystem
  import opened DataTables

  // The names the views give the tables: the table number and its name, at most 16 characters.
  const TypeRefName := "0x01 TypeRef"
  const MethodDefName := "0x06 MethodDef"
  const MemberRefName := "0x0A MemberRef"
  const ConstantName := "0x0B Constant"
  const ModuleRefName := "0x1A ModuleRef"
  const AssemblyRefName := "0x23 AssemblyRef"

  /**
   * How a heap reference is written: its bare content (MetadataTable.cs) or prefixed with its
   * heap offset, "[blob: N] " or "[heap: N] " (MetadataTables.cs).
   */
  datatype HeapStyle = Bare | WithOffset

  /** Every table's rows are numbered within the three low bytes of a token. */
  predicate Fits(md: Metadata)
  {
    && |md.typeRefs| < RowLimit
    && |md.methodDefs| < RowLimit
    && |md.memberRefs| < RowLimit
    && |md.constants| < RowLimit
    && |md.moduleRefs| < RowLimit
    && |md.assemblyRefs| < RowLimit
  }

  // ---------------------------------------------------------------------------------------
  // Cell renderers

  /** A blob: "nil" for the nil handle, otherwise two hex digits per byte in order. */
  function BlobText(b: BlobHandle): string
  {
    match b.content
    case None => "nil"
    case Some(bytes) => BytesHex(bytes)
  }

  /** The heap-offset prefix: `"[" + heap + ": " + offset + "] "` before the rendered content. */
  function Tagged(heap: string, offset: nat, rest: string): string
  {
    "[" + heap + ": " + NatDecimal(offset) + "] " + rest
  }

  function BlobCell(style: HeapStyle, b: BlobHandle): string
  {
    if style == Bare then BlobText(b) else Tagged("blob", b.offset, BlobText(b))
  }

  function StringCell(style: HeapStyle, h: StringHandle): string
  {
    if style == Bare then h.value else Tagged("heap", h.offset, h.value)
  }

  /** `GetBlob`: appends the prefix (in the offset style), then "nil" or each byte's two digits. */
  method GetBlob(style: HeapStyle, b: BlobHandle) returns (s: string)
    ensures s == BlobCell(style, b)
  {
    s := "";
    if style == WithOffset {
      s := s + "[blob: " + NatDecimal(b.offset) + "] ";
    }
    if b.content.None? {
      s := s + "nil";
    } else {
      var bytes: seq<nat> := b.content.value;
      var digits := "";
      for i := 0 to |bytes|
        invariant digits == BytesHex(bytes[..i])
      {
        assert bytes[..i + 1][..i] == bytes[..i];
        digits := digits + Hex(bytes[i], 2);
      }
      assert bytes[..|bytes|] == bytes;
      s := s + digits;
    }
  }

  /** The hex digits `GetEnum` writes for each width of the underlying integer type. */
  function EnumDigits(w: EnumWidth): nat
  {
    match w
    case Width8 => 2
    case Width16 => 4
    case Width32 => 8
    case Width64 => 16
    case NoIntegerWidth => 0
  }

  /** Does the value fit the width of its underlying type? */
  predicate EnumFits(e: EnumValue)
  {
    e.bits < Pow16(EnumDigits(e.width))
  }

  /** `GetEnum`: the value in hex at the width of its underlying type, then " (name)" when the name is not empty. */
  function EnumText(e: EnumValue): string
  {
    Hex(e.bits, EnumDigits(e.width)) + (if e.text == "" then "" else " (" + e.text + ")")
  }

  /** A token in eight lowercase hex digits (`GetToken (handle).ToString ("x8")`). */
  function TokenText(table: byte, rid: nat): string
    requires rid < RowLimit
  {
    Hex(MakeToken(table, rid), 8)
  }

  // ---------------------------------------------------------------------------------------
  // Properties of the renderers

  /** A blob renders as "nil" exactly when it is nil; otherwise as its bytes, two digits each, read back exactly. */
  lemma BlobTextSpec(b: BlobHandle)
    ensures b.content.None? ==> BlobText(b) == "nil"
    ensures b.content.Some? ==>
      var s := BlobText(b);
      && |s| == 2 * |b.content.value|
      && (forall i :: 0 <= i < |b.content.value| ==> s[2 * i..2 * i + 2] == Hex(b.content.value[i], 2))
      && ParseBytes(s) == b.content.value
  {
    if b.content.Some? {
      var bytes := b.content.value;
      forall i | 0 <= i < |bytes|
        ensures BlobText(b)[2 * i..2 * i + 2] == Hex(bytes[i], 2)
      {
        BytesHexAt(bytes, i);
      }
      ParseBytesHex(bytes);
    }
  }

  /** Different blob contents render differently (the nil rendering has odd length). */
  lemma BlobTextInjective(a: BlobHandle, b: BlobHandle)
    requires BlobText(a) == BlobText(b)
    ensures a.content == b.content
  {
    BlobTextSpec(a);
    BlobTextSpec(b);
  }

  /** The offset prefix reads back: the first ']' closes the decimal offset, and the content follows "] ". */
  lemma {:induction false} TaggedParse(heap: string, offset: nat, rest: string)
    requires ']' !in heap
    ensures
      var s := Tagged(heap, offset, rest);
      var close := |heap| + 3 + |NatDecimal(offset)|;
      && close + 2 <= |s|
      && IndexOfChar(s, ']', 0) == close
      && ParseDecimal(s[|heap| + 3..close]) == offset
      && s[..|heap| + 3] == "[" + heap + ": "
      && s[close + 2..] == rest
  {
    var s := Tagged(heap, offset, rest);
    var digits := NatDecimal(offset);
    var close := |heap| + 3 + |digits|;
    assert s == "[" + heap + ": " + digits + "] " + rest;
    assert s[close] == ']';
    forall k | 0 <= k < close
      ensures s[k] != ']'
    {
      if 1 <= k < |heap| + 1 {
        assert s[k] == heap[k - 1];
      } else if |heap| + 3 <= k {
        assert s[k] == digits[k - |heap| - 3];
      }
    }
    IndexOfCharFirst(s, ']', close);
    assert s[|heap| + 3..close] == digits;
    ParseNatDecimal(offset);
  }

  /** The hex part of an enum's rendering reads back its value, and the name follows in parentheses. */
  lemma EnumTextSpec(e: EnumValue)
    requires EnumFits(e)
    ensures
      var s := EnumText(e);
      var d := EnumDigits(e.width);
      && d <= |s|
      && ParseHex(s[..d]) == e.bits
      && (e.text == "" <==> |s| == d)
      && (e.text != "" ==> s[d..] == " (" + e.text + ")")
  {
    var d := EnumDigits(e.width);
    var s := EnumText(e);
    assert s[..d] == Hex(e.bits, d);
    ParseHexOfHex(e.bits, d);
  }

  /** Two values of one enum type that render alike are equal (for an integer underlying type). */
  lemma EnumTextInjective(a: EnumValue, b: EnumValue)
    requires a.width == b.width && EnumFits(a) && EnumFits(b)
    requires EnumText(a) == EnumText(b)
    ensures a.text == b.text
    ensures a.width != NoIntegerWidth ==> a.bits == b.bits
  {
    EnumTextSpec(a);
    EnumTextSpec(b);
    var d := EnumDigits(a.width);
    if a.text != "" && b.text != "" {
      var s := EnumText(a);
      assert s[d..] == " (" + a.text + ")" == " (" + b.text + ")";
      assert a.text == (" (" + a.text + ")")[2..|s| - d - 1];
    }
  }

  /** The token text is the table number in two digits and the row in six, and reads back to both. */
  lemma TokenTextSpec(table: byte, rid: nat)
    requires rid < RowLimit
    ensures TokenText(table, rid) == Hex(table, 2) + Hex(rid, 6)
    ensures ParseHex(TokenText(table, rid)) == MakeToken(table, rid)
    ensures TableOf(ParseHex(TokenText(table, rid))) == table && RowOf(ParseHex(TokenText(table, rid))) == rid
  {
    TokenDigits(table, rid);
    assert Pow16(8) == 0x1_0000_0000;
    ParseHexOfHex(MakeToken(table, rid), 8);
    TokenParts(table, rid);
  }

  lemma TokenDigits(table: byte, rid: nat)
    requires rid < RowLimit
    ensures TokenText(table, rid) == Hex(table, 2) + Hex(rid, 6)
  {
    assert Pow16(6) == RowLimit;
    ShiftedIsProduct(table, 6);
    assert Shifted(table, 6) + rid == MakeToken(table, rid);
    HexConcat(table, rid, 2, 6);
  }

  // ---------------------------------------------------------------------------------------
  // Table layout

  /** `CreateTable`: the table records its module ("PE") and its name ("Metadata"); its first column is "RID". */
  function CreateTable(pe: PEFile, name: string): Table
  {
    Table([Column("RID", Int32Type)], [], Properties(Some(pe), Some(name), None, false))
  }

  function StringColumns(names: seq<string>): (cols: seq<Column>)
    ensures |cols| == |names|
    ensures forall i :: 0 <= i < |names| ==> cols[i] == Column(names[i], StringType)
  {
    if |names| == 0 then [] else [Column(names[0], StringType)] + StringColumns(names[1..])
  }

  /** `t` was made by `CreateTable (pe, name)`. */
  predicate Origin(t: Table, pe: PEFile, name: string)
  {
    && t.properties == Properties(Some(pe), Some(name), None, false)
    && |t.columns| >= 1
    && t.columns[0] == Column("RID", Int32Type)
  }

  /** `count` rows numbered 1 to `count` in order, each followed by the token of that row of `table`. */
  predicate Listed(t: Table, table: byte, count: nat)
  {
    && count < RowLimit
    && |t.rows| == count
    && forall k :: 0 <= k < count ==>
         |t.rows[k]| >= 2 && t.rows[k][0] == IntValue(k + 1) && t.rows[k][1] == StrValue(TokenText(table, k + 1))
  }

  /** Row `k` of `table` has `width` cells and starts with its RID and its token. */
  predicate Numbered(cells: seq<Value>, table: byte, k: nat, width: nat)
  {
    && k + 1 < RowLimit
    && |cells| == width >= 2
    && cells[0] == IntValue(k + 1)
    && cells[1] == StrValue(TokenText(table, k + 1))
  }

  /** A table as a builder leaves it: made by `CreateTable`, its string columns added, its rows appended. */
  function Built(pe: PEFile, name: string, names: seq<string>, rows: seq<seq<Value>>): Table
  {
    var t := CreateTable(pe, name);
    t.(columns := t.columns + StringColumns(names), rows := rows)
  }

  lemma BuiltShape(pe: PEFile, name: string, names: seq<string>, rows: seq<seq<Value>>, table: byte)
    requires |rows| < RowLimit
    requires forall k :: 0 <= k < |rows| ==> Numbered(rows[k], table, k, |names| + 1)
    ensures Origin(Built(pe, name, names, rows), pe, name)
    ensures WellShaped(Built(pe, name, names, rows))
    ensures Listed(Built(pe, name, names, rows), table, |rows|)
  {
  }

  // ---------------------------------------------------------------------------------------
  // 0x01 TypeRef (ECMA-335 Partition II, section 22.38)

  const TypeRefColumns := ["Token", "ResolutionScope", "TypeName", "TypeNamespace"]

  /** Does the token's top byte carry every bit of `bits`? (`(token & (bits << 24)) == bits << 24`) */
  predicate HasTableBits(token: uint32, bits: bv8)
  {
    ((token / RowLimit) as bv8) & bits == bits
  }

  /**
   * The ResolutionScope cell: "0x" and the scope's token, then the referenced assembly's name when
   * the token carries the AssemblyRef bits, or the enclosing type's name when it carries the TypeRef
   * bit. Any other scope adds nothing: the source calls `Debugger.Break` there, which the model
   * takes as a no-op. `None` is the exception the handle cast or the row lookup throws
   * when the token does not name a row of that table.
   */
  function ScopeText(md: Metadata, rst: uint32): Option<string>
  {
    var text := "0x" + Hex(rst, 8);
    if HasTableBits(rst, 0x23) then
      if TableOf(rst) == AssemblyRefTable as nat && 1 <= RowOf(rst) <= |md.assemblyRefs|
      then Some(text + " " + md.assemblyRefs[RowOf(rst) - 1].name.value)
      else None
    else if HasTableBits(rst, 0x01) then
      if TableOf(rst) == TypeRefTable as nat && 1 <= RowOf(rst) <= |md.typeRefs|
      then Some(text + " " + md.typeRefs[RowOf(rst) - 1].name.value)
      else None
    else Some(text)
  }

  /** The tables a ResolutionScope coded index can name (ECMA-335 Partition II, section 24.2.6). */
  predicate IsScopeTable(t: byte)
  {
    t == 0x00 || t == ModuleRefTable || t == AssemblyRefTable || t == TypeRefTable
  }

  /**
   * For the four tables a resolution scope can name, the bit tests classify exactly: the
   * AssemblyRef test holds only for AssemblyRef tokens, the TypeRef test (tried next) only for
   * TypeRef tokens.
   */
  lemma ScopeClassification(t: byte, rid: nat)
    requires IsScopeTable(t) && rid < RowLimit
    ensures HasTableBits(MakeToken(t, rid), 0x23) <==> t == AssemblyRefTable
    ensures !HasTableBits(MakeToken(t, rid), 0x23) ==> (HasTableBits(MakeToken(t, rid), 0x01) <==> t == TypeRefTable)
  {
    assert MakeToken(t, rid) / RowLimit == t;
  }

  /**
   * The scope cell for each kind of scope: Module and ModuleRef scopes show the token alone; an
   * AssemblyRef or TypeRef scope resolves exactly when its row exists, and then shows the token,
   * a space and that row's name.
   */
  lemma ScopeTextSpec(md: Metadata, t: byte, rid: nat)
    requires IsScopeTable(t) && rid < RowLimit
    ensures
      var s := ScopeText(md, MakeToken(t, rid));
      var token := "0x" + TokenText(t, rid);
      && (t == 0x00 || t == ModuleRefTable ==> s == Some(token))
      && (t == AssemblyRefTable ==>
            (s.Some? <==> 1 <= rid <= |md.assemblyRefs|)
            && (s.Some? ==> s.value == token + " " + md.assemblyRefs[rid - 1].name.value))
      && (t == TypeRefTable ==>
            (s.Some? <==> 1 <= rid <= |md.typeRefs|)
            && (s.Some? ==> s.value == token + " " + md.typeRefs[rid - 1].name.value))
  {
    ScopeClassification(t, rid);
    assert TableOf(MakeToken(t, rid)) == t && RowOf(MakeToken(t, rid)) == rid;
  }

  predicate ScopesResolve(md: Metadata)
  {
    forall k :: 0 <= k < |md.typeRefs| ==> ScopeText(md, md.typeRefs[k].resolutionScope).Some?
  }

  function TypeRefCells(md: Metadata, k: nat): (r: seq<Value>)
    requires k < |md.typeRefs| < RowLimit && ScopeText(md, md.typeRefs[k].resolutionScope).Some?
    ensures Numbered(r, TypeRefTable, k, |TypeRefColumns| + 1)
  {
    var tref := md.typeRefs[k];
    [IntValue(k + 1), StrValue(TokenText(TypeRefTable, k + 1)), StrValue(ScopeText(md, tref.resolutionScope).value),
     StrValue(tref.name.value), StrValue(tref.namespace.value)]
  }

  /** The TypeRef table, or `None` when some row's resolution scope cannot be looked up. */
  function TypeRefListing(pe: PEFile): (t: Option<Table>)
    requires Fits(pe.metadata)
    ensures t.Some? <==> ScopesResolve(pe.metadata)
    ensures t.Some? ==> Origin(t.value, pe, TypeRefName) && WellShaped(t.value) && Listed(t.value, TypeRefTable, |pe.metadata.typeRefs|)
  {
    var md := pe.metadata;
    if ScopesResolve(md) then
      var rows := seq(|md.typeRefs|, k requires 0 <= k < |md.typeRefs| => TypeRefCells(md, k));
      BuiltShape(pe, TypeRefName, TypeRefColumns, rows, TypeRefTable);
      Some(Built(pe, TypeRefName, TypeRefColumns, rows))
    else None
  }

  /**
   * One TypeRef row as the loop body builds it: the scope text goes through the shared buffer,
   * which the row leaves empty again. `None` is the lookup's exception.
   */
  method ReadTypeRefRow(md: Metadata, k: nat, buffer: string) returns (row: Option<seq<Value>>, buffer': string)
    requires k < |md.typeRefs| < RowLimit && buffer == ""
    ensures row.Some? <==> ScopeText(md, md.typeRefs[k].resolutionScope).Some?
    ensures row.Some? ==> row.value == TypeRefCells(md, k) && buffer' == ""
  {
    var tref := md.typeRefs[k];
    var rst := tref.resolutionScope;
    buffer' := buffer + "0x" + Hex(rst, 8);
    assert buffer' == "0x" + Hex(rst, 8);
    if HasTableBits(rst, 0x23) {
      if !(TableOf(rst) == AssemblyRefTable as nat && 1 <= RowOf(rst) <= |md.assemblyRefs|) {
        return None, buffer';
      }
      buffer' := buffer' + " " + md.assemblyRefs[RowOf(rst) - 1].name.value;
    } else if HasTableBits(rst, 0x01) {
      if !(TableOf(rst) == TypeRefTable as nat && 1 <= RowOf(rst) <= |md.typeRefs|) {
        return None, buffer';
      }
      buffer' := buffer' + " " + md.typeRefs[RowOf(rst) - 1].name.value;
    }
    assert ScopeText(md, rst) == Some(buffer');
    row := Some([IntValue(k + 1), StrValue(TokenText(TypeRefTable, k + 1)), StrValue(buffer'),
                 StrValue(tref.name.value), StrValue(tref.namespace.value)]);
    buffer' := "";
  }

  /** `GetTypeRefTable`: one row per TypeRef; a scope that cannot be looked up ends the listing. */
  method GetTypeRefTable(pe: PEFile) returns (t: Option<Table>)
    requires Fits(pe.metadata)
    ensures t == TypeRefListing(pe)
  {
    var md := pe.metadata;
    var rows: seq<seq<Value>> := [];
    var buffer := "";
    for k := 0 to |md.typeRefs|
      invariant buffer == ""
      invariant |rows| == k
      invariant forall i :: 0 <= i < k ==>
                  ScopeText(md, md.typeRefs[i].resolutionScope).Some? && rows[i] == TypeRefCells(md, i)
    {
      var row;
      row, buffer := ReadTypeRefRow(md, k, buffer);
      if row.None? {
        assert !ScopesResolve(md);
        assert TypeRefListing(pe) == None;
        return None;
      }
      rows := rows + [row.value];
    }
    assert ScopesResolve(md);
    assert rows == seq(|md.typeRefs|, k requires 0 <= k < |md.typeRefs| => TypeRefCells(md, k));
    t := Some(Built(pe, TypeRefName, TypeRefColumns, rows));
  }

  // ---------------------------------------------------------------------------------------
  // 0x06 MethodDef (ECMA-335 Partition II, section 22.26)

  /** The ParamList column is declared, but rows leave it out, so it holds `DBNull`. */
  const MethodDefColumns := ["Token", "RVA", "ImplFlags", "Flags", "Name", "Signature", "ParamList"]

  function MethodDefCells(md: Metadata, style: HeapStyle, k: nat): (r: seq<Value>)
    requires k < |md.methodDefs| < RowLimit
    ensures Numbered(r, MethodDefTable, k, |MethodDefColumns| + 1)
  {
    var mdef := md.methodDefs[k];
    [IntValue(k + 1), StrValue(TokenText(MethodDefTable, k + 1)), StrValue(Hex(mdef.rva, 8)),
     StrValue(EnumText(mdef.implFlags)), StrValue(EnumText(mdef.flags)), StrValue(StringCell(style, mdef.name)),
     StrValue(BlobCell(style, mdef.signature)), NullValue]
  }

  function MethodDefListing(pe: PEFile, style: HeapStyle): (t: Table)
    requires Fits(pe.metadata)
    ensures Origin(t, pe, MethodDefName) && WellShaped(t) && Listed(t, MethodDefTable, |pe.metadata.methodDefs|)
    ensures forall k :: 0 <= k < |t.rows| ==> |t.rows[k]| == 8 && t.rows[k][7] == NullValue
  {
    var rows := MethodDefRows(pe.metadata, style);
    BuiltShape(pe, MethodDefName, MethodDefColumns, rows, MethodDefTable);
    Built(pe, MethodDefName, MethodDefColumns, rows)
  }

  function MethodDefRows(md: Metadata, style: HeapStyle): (rows: seq<seq<Value>>)
    requires |md.methodDefs| < RowLimit
    ensures |rows| == |md.methodDefs|
  {
    seq(|md.methodDefs|, k requires 0 <= k < |md.methodDefs| => MethodDefCells(md, style, k))
  }

  method ReadMethodDefRow(md: Metadata, style: HeapStyle, k: nat) returns (row: seq<Value>)
    requires k < |md.methodDefs| < RowLimit
    ensures row == MethodDefCells(md, style, k)
  {
    var mdef := md.methodDefs[k];
    var signature := GetBlob(style, mdef.signature);
    row := [IntValue(k + 1), StrValue(TokenText(MethodDefTable, k + 1)), StrValue(Hex(mdef.rva, 8)),
            StrValue(EnumText(mdef.implFlags)), StrValue(EnumText(mdef.flags)),
            StrValue(StringCell(style, mdef.name)), StrValue(signature), NullValue];
  }

  method GetMethodDefTable(pe: PEFile, style: HeapStyle) returns (t: Table)
    requires Fits(pe.metadata)
    ensures t == MethodDefListing(pe, style)
  {
    var rows := ReadMethodDefRows(pe.metadata, style);
    t := Built(pe, MethodDefName, MethodDefColumns, rows);
  }

  /** The loop of `GetMethodDefTable`: one row per method definition, in table order. */
  method ReadMethodDefRows(md: Metadata, style: HeapStyle) returns (rows: seq<seq<Value>>)
    requires |md.methodDefs| < RowLimit
    ensures rows == MethodDefRows(md, style)
  {
    rows := [];
    for k := 0 to |md.methodDefs|
      invariant |rows| == k
      invariant forall i :: 0 <= i < k ==> rows[i] == MethodDefCells(md, style, i)
    {
      var row := ReadMethodDefRow(md, style, k);
      rows := rows + [row];
    }
  }

  // ---------------------------------------------------------------------------------------
  // 0x0A MemberRef (ECMA-335 Partition II, section 22.25)

  const MemberRefColumns := ["Token", "Class", "Name", "Signature"]

  function MemberRefCells(md: Metadata, style: HeapStyle, k: nat): (r: seq<Value>)
    requires k < |md.memberRefs| < RowLimit
    ensures Numbered(r, MemberRefTable, k, |MemberRefColumns| + 1)
  {
    var mref := md.memberRefs[k];
    [IntValue(k + 1), StrValue(TokenText(MemberRefTable, k + 1)), StrValue(Hex(mref.parent, 8)),
     StrValue(StringCell(style, mref.name)), StrValue(BlobCell(style, mref.signature))]
  }

  function MemberRefListing(pe: PEFile, style: HeapStyle): (t: Table)
    requires Fits(pe.metadata)
    ensures Origin(t, pe, MemberRefName) && WellShaped(t) && Listed(t, MemberRefTable, |pe.metadata.memberRefs|)
  {
    var md := pe.metadata;
    var rows := seq(|md.memberRefs|, k requires 0 <= k < |md.memberRefs| => MemberRefCells(md, style, k));
    BuiltShape(pe, MemberRefName, MemberRefColumns, rows, MemberRefTable);
    Built(pe, MemberRefName, MemberRefColumns, rows)
  }

  method ReadMemberRefRow(md: Metadata, style: HeapStyle, k: nat) returns (row: seq<Value>)
    requires k < |md.memberRefs| < RowLimit
    ensures row == MemberRefCells(md, style, k)
  {
    var mref := md.memberRefs[k];
    var signature := GetBlob(style, mref.signature);
    row := [IntValue(k + 1), StrValue(TokenText(MemberRefTable, k + 1)), StrValue(Hex(mref.parent, 8)),
            StrValue(StringCell(style, mref.name)), StrValue(signature)];
  }

  method GetMemberRefTable(pe: PEFile, style: HeapStyle) returns (t: Table)
    requires Fits(pe.metadata)
    ensures t == MemberRefListing(pe, style)
  {
    var md := pe.metadata;
    var rows: seq<seq<Value>> := [];
    for k := 0 to |md.memberRefs|
      invariant |rows| == k
      invariant forall i :: 0 <= i < k ==> rows[i] == MemberRefCells(md, style, i)
    {
      var row := ReadMemberRefRow(md, style, k);
      rows := rows + [row];
    }
    t := Built(pe, MemberRefName, MemberRefColumns, rows);
  }

  // ---------------------------------------------------------------------------------------
  // 0x0B Constant (ECMA-335 Partition II, section 22.9)

  const ConstantColumns := ["Token", "Type", "Parent", "Value"]

  function ConstantCells(md: Metadata, style: HeapStyle, k: nat): (r: seq<Value>)
    requires k < |md.constants| < RowLimit
    ensures Numbered(r, ConstantTable, k, |ConstantColumns| + 1)
  {
    var c := md.constants[k];
    [IntValue(k + 1), StrValue(TokenText(ConstantTable, k + 1)), StrValue(EnumText(c.typeCode)),
     StrValue(Hex(c.parent, 8)), StrValue(BlobCell(style, c.value))]
  }

  /** The Constant table listing its first `count` rows. */
  function ConstantRows(pe: PEFile, style: HeapStyle, count: nat): (t: Table)
    requires count <= |pe.metadata.constants| < RowLimit
    ensures Origin(t, pe, ConstantName) && WellShaped(t) && Listed(t, ConstantTable, count)
  {
    var rows := seq(count, k requires 0 <= k < count => ConstantCells(pe.metadata, style, k));
    BuiltShape(pe, ConstantName, ConstantColumns, rows, ConstantTable);
    Built(pe, ConstantName, ConstantColumns, rows)
  }

  /** The Constant table: every row, RID 1 to the table's row count. */
  function ConstantListing(pe: PEFile, style: HeapStyle): (t: Table)
    requires Fits(pe.metadata)
    ensures Origin(t, pe, ConstantName) && WellShaped(t) && Listed(t, ConstantTable, |pe.metadata.constants|)
  {
    ConstantRows(pe, style, |pe.metadata.constants|)
  }

  /** One Constant row, for the row number `row` (1-based). */
  method ReadConstantRow(md: Metadata, style: HeapStyle, row: nat) returns (cells: seq<Value>)
    requires 1 <= row <= |md.constants| < RowLimit
    ensures cells == ConstantCells(md, style, row - 1)
  {
    var c := md.constants[row - 1];
    var value := GetBlob(style, c.value);
    cells := [IntValue(row), StrValue(TokenText(ConstantTable, row)), StrValue(EnumText(c.typeCode)),
              StrValue(Hex(c.parent, 8)), StrValue(value)];
  }

  /** `GetConstantTable`: rows 1 up to and including the row count. */
  method GetConstantTable(pe: PEFile, style: HeapStyle) returns (t: Table)
    requires Fits(pe.metadata)
    ensures t == ConstantListing(pe, style)
  {
    var md := pe.metadata;
    var rows: seq<seq<Value>> := [];
    var row := 1;
    while row <= |md.constants|
      invariant 1 <= row <= |md.constants| + 1
      invariant |rows| == row - 1
      invariant forall i :: 0 <= i < row - 1 ==> rows[i] == ConstantCells(md, style, i)
    {
      var cells := ReadConstantRow(md, style, row);
      rows := rows + [cells];
      row := row + 1;
    }
    t := Built(pe, ConstantName, ConstantColumns, rows);
  }

  // ---------------------------------------------------------------------------------------
  // 0x1A ModuleRef (ECMA-335 Partition II, section 22.31)

  const ModuleRefColumns := ["Token", "Name"]

  function ModuleRefCells(md: Metadata, k: nat): (r: seq<Value>)
    requires k < |md.moduleRefs| < RowLimit
    ensures Numbered(r, ModuleRefTable, k, |ModuleRefColumns| + 1)
  {
    [IntValue(k + 1), StrValue(TokenText(ModuleRefTable, k + 1)), StrValue(md.moduleRefs[k].value)]
  }

  function ModuleRefListing(pe: PEFile): (t: Table)
    requires Fits(pe.metadata)
    ensures Origin(t, pe, ModuleRefName) && WellShaped(t) && Listed(t, ModuleRefTable, |pe.metadata.moduleRefs|)
    ensures forall k :: 0 <= k < |t.rows| ==> |t.rows[k]| == 3 && t.rows[k][2] == StrValue(pe.metadata.moduleRefs[k].value)
  {
    var md := pe.metadata;
    var rows := seq(|md.moduleRefs|, k requires 0 <= k < |md.moduleRefs| => ModuleRefCells(md, k));
    BuiltShape(pe, ModuleRefName, ModuleRefColumns, rows, ModuleRefTable);
    Built(pe, ModuleRefName, ModuleRefColumns, rows)
  }

  /** `GetModuleRefTable`: rows 1 up to and including the row count. */
  method GetModuleRefTable(pe: PEFile) returns (t: Table)
    requires Fits(pe.metadata)
    ensures t == ModuleRefListing(pe)
  {
    var md := pe.metadata;
    var rows: seq<seq<Value>> := [];
    var row := 1;
    while row <= |md.moduleRefs|
      invariant 1 <= row <= |md.moduleRefs| + 1
      invariant |rows| == row - 1
      invariant forall i :: 0 <= i < row - 1 ==> rows[i] == ModuleRefCells(md, i)
    {
      rows := rows + [[IntValue(row), StrValue(TokenText(ModuleRefTable, row)), StrValue(md.moduleRefs[row - 1].value)]];
      row := row + 1;
    }
    t := Built(pe, ModuleRefName, ModuleRefColumns, rows);
  }

  // ---------------------------------------------------------------------------------------
  // 0x23 AssemblyRef (ECMA-335 Partition II, section 22.5)

  const AssemblyRefColumns := ["Token", "Version", "Flags", "PublicKeyOrToken", "Name", "Culture", "HashValue"]

  function AssemblyRefCells(md: Metadata, style: HeapStyle, k: nat): (r: seq<Value>)
    requires k < |md.assemblyRefs| < RowLimit
    ensures Numbered(r, AssemblyRefTable, k, |AssemblyRefColumns| + 1)
  {
    var aref := md.assemblyRefs[k];
    [IntValue(k + 1), StrValue(TokenText(AssemblyRefTable, k + 1)), StrValue("{" + aref.version + "}"),
     StrValue(EnumText(aref.flags)), StrValue(BlobCell(style, aref.publicKeyOrToken)), StrValue(StringCell(style, aref.name)),
     StrValue(StringCell(style, aref.culture)), StrValue(BlobCell(style, aref.hashValue))]
  }

  function AssemblyRefRows(md: Metadata, style: HeapStyle): (rows: seq<seq<Value>>)
    requires |md.assemblyRefs| < RowLimit
    ensures |rows| == |md.assemblyRefs|
  {
    seq(|md.assemblyRefs|, k requires 0 <= k < |md.assemblyRefs| => AssemblyRefCells(md, style, k))
  }

  function AssemblyRefListing(pe: PEFile, style: HeapStyle): (t: Table)
    requires Fits(pe.metadata)
    ensures Origin(t, pe, AssemblyRefName) && WellShaped(t) && Listed(t, AssemblyRefTable, |pe.metadata.assemblyRefs|)
  {
    var rows := AssemblyRefRows(pe.metadata, style);
    BuiltShape(pe, AssemblyRefName, AssemblyRefColumns, rows, AssemblyRefTable);
    Built(pe, AssemblyRefName, AssemblyRefColumns, rows)
  }

  method ReadAssemblyRefRow(md: Metadata, style: HeapStyle, k: nat) returns (row: seq<Value>)
    requires k < |md.assemblyRefs| < RowLimit
    ensures row == AssemblyRefCells(md, style, k)
  {
    var aref := md.assemblyRefs[k];
    var publicKey := GetBlob(style, aref.publicKeyOrToken);
    var hash := GetBlob(style, aref.hashValue);
    row := [IntValue(k + 1), StrValue(TokenText(AssemblyRefTable, k + 1)), StrValue("{" + aref.version + "}"),
            StrValue(EnumText(aref.flags)), StrValue(publicKey), StrValue(StringCell(style, aref.name)),
            StrValue(StringCell(style, aref.culture)), StrValue(hash)];
  }

  /** The loop of `GetAssemblyRefTable`: one row per reference, in table order. */
  method ReadAssemblyRefRows(md: Metadata, style: HeapStyle) returns (rows: seq<seq<Value>>)
    requires |md.assemblyRefs| < RowLimit
    ensures rows == AssemblyRefRows(md, style)
  {
    rows := [];
    for k := 0 to |md.assemblyRefs|
      invariant |rows| == k
      invariant forall i :: 0 <= i < k ==> rows[i] == AssemblyRefCells(md, style, i)
    {
      var row := ReadAssemblyRefRow(md, style, k);
      rows := rows + [row];
    }
  }

  method GetAssemblyRefTable(pe: PEFile, style: HeapStyle) returns (t: Table)
    requires Fits(pe.metadata)
    ensures t == AssemblyRefListing(pe, style)
  {
    var rows := ReadAssemblyRefRows(pe.metadata, style);
    t := Built(pe, AssemblyRefName, AssemblyRefColumns, rows);
  }
}

/**
 * The second set of metadata table views (MetadataTables.cs): the same builders with heap
 * references prefixed by their heap offset, a dispatch from a table's name to its builder, and
 * the list of names the view offers.
 */
module MetadataTables {
  import opened Wrappers
  import opened HexFormat
  import opened TypeSystem
  import opened DataTables
  import opened MetadataTable

  /** The tables the list offers, in order (`MetadataDataSource`). */
  const TableNames := [MethodDefName, MemberRefName, ConstantName, AssemblyRefName]

  /** The width of the list's entries (`MetadataDataSource.Length`). */
  const NameWidth := 16

  /**
   * `GetTable`: the builder for each listed name; any other name throws (`None`). The Constant
   * entry goes to this file's own Constant builder, which lists one row fewer than the table has.
   */
  function GetTable(name: string, pe: PEFile): (t: Option<Table>)
    requires Fits(pe.metadata)
    ensures t.Some? <==> name in TableNames
    ensures t.Some? ==> Origin(t.value, pe, name) && WellShaped(t.value)
    ensures name == MethodDefName ==> Listed(t.value, MethodDefTable, |pe.metadata.methodDefs|)
    ensures name == MemberRefName ==> Listed(t.value, MemberRefTable, |pe.metadata.memberRefs|)
    ensures name == AssemblyRefName ==> Listed(t.value, AssemblyRefTable, |pe.metadata.assemblyRefs|)
    ensures name == ConstantName ==>
              t == Some(ConstantListingAsWritten(pe)) &&
              Listed(t.value, ConstantTable, if |pe.metadata.constants| == 0 then 0 else |pe.metadata.constants| - 1)
  {
    if name == MethodDefName then Some(MethodDefListing(pe, WithOffset))
    else if name == MemberRefName then Some(MemberRefListing(pe, WithOffset))
    else if name == ConstantName then Some(ConstantListingAsWritten(pe))
    else if name == AssemblyRefName then Some(AssemblyRefListing(pe, WithOffset))
    else None
  }

  /** The list has four entries, distinct, each fitting the list's width, and each opens a table. */
  lemma DataSourceSpec(pe: PEFile)
    requires Fits(pe.metadata)
    ensures |TableNames| == 4
    ensures forall i, j :: 0 <= i < j < |TableNames| ==> TableNames[i] != TableNames[j]
    ensures forall i :: 0 <= i < |TableNames| ==> |TableNames[i]| <= NameWidth && GetTable(TableNames[i], pe).Some?
  {
  }

  /** The Constant builder of MetadataTables.cs as written: its loop stops before the last row. */
  function ConstantListingAsWritten(pe: PEFile): (t: Table)
    requires Fits(pe.metadata)
    ensures Origin(t, pe, ConstantName) && WellShaped(t)
    ensures Listed(t, ConstantTable, if |pe.metadata.constants| == 0 then 0 else |pe.metadata.constants| - 1)
  {
    var count := |pe.metadata.constants|;
    ConstantRows(pe, WithOffset, if count == 0 then 0 else count - 1)
  }

  /** `GetConstantTable` as written: `row < count` where the table's rows run 1 to `count`. */
  method GetConstantTableAsWritten(pe: PEFile) returns (t: Table)
    requires Fits(pe.metadata)
    ensures t == ConstantListingAsWritten(pe)
  {
    var md := pe.metadata;
    var rows: seq<seq<Value>> := [];
    var row := 1;
    while row < |md.constants|
      invariant 1 <= row && (row == 1 || row <= |md.constants|)
      invariant |rows| == row - 1
      invariant forall i :: 0 <= i < row - 1 ==> rows[i] == ConstantCells(md, WithOffset, i)
    {
      var cells := ReadConstantRow(md, WithOffset, row);
      rows := rows + [cells];
      row := row + 1;
    }
    t := Built(pe, ConstantName, ConstantColumns, rows);
  }

  /** As written, the last constant is never listed: one row short of the table, for every non-empty table. */
  lemma ConstantAsWrittenDropsLast(pe: PEFile)
    requires Fits(pe.metadata) && |pe.metadata.constants| >= 1
    ensures |ConstantListingAsWritten(pe).rows| == |pe.metadata.constants| - 1
    ensures |ConstantListing(pe, WithOffset).rows| == |pe.metadata.constants|
    ensures forall r :: r in ConstantListingAsWritten(pe).rows ==> r[0] != IntValue(|pe.metadata.constants|)
    ensures ConstantListing(pe, WithOffset).rows[|pe.metadata.constants| - 1][0] == IntValue(|pe.metadata.constants|)
  {
    var t := ConstantListingAsWritten(pe);
    forall r | r in t.rows
      ensures r[0] != IntValue(|pe.metadata.constants|)
    {
      var k :| 0 <= k < |t.rows| && t.rows[k] == r;
    }
  }

  /** A module with a single constant: the view as written shows an empty table. */
  lemma ConstantAsWrittenExample()
    ensures
      var c := ConstantRow(EnumValue(Width8, 8, "Int32"), 0x0400_0001, BlobHandle(1, Some([42, 0, 0, 0])));
      var pe := PEFile("a.dll", "a", "a, Version=1.0.0.0", "1.0.0.0", Metadata([], [], [], [c], [], []), [], []);
      Fits(pe.metadata) && ConstantListingAsWritten(pe).rows == [] && |ConstantListing(pe, WithOffset).rows| == 1
  {
  }
}
