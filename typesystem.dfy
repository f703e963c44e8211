/**
 * The abstract view of a loaded module that the core reads: the PE file with its metadata rows
 * and the type system's definitions. Parsing and type resolution belong to the libraries the
 * program calls; here they are plain values.
 */
module TypeSystem {
  import opened Wrappers

  type byte = x: int | 0 <= x < 0x100
  type int32 = x: int | -0x8000_0000 <= x < 0x8000_0000
  type uint32 = x: int | 0 <= x < 0x1_0000_0000

  // Metadata table numbers (ECMA-335 Partition II, section 22).
  const TypeRefTable: byte := 0x01
  const TypeDefTable: byte := 0x02
  const FieldTable: byte := 0x04
  const MethodDefTable: byte := 0x06
  const MemberRefTable: byte := 0x0A
  const ConstantTable: byte := 0x0B
  const EventTable: byte := 0x14
  const PropertyTable: byte := 0x17
  const ModuleRefTable: byte := 0x1A
  const AssemblyRefTable: byte := 0x23

  const RowLimit: nat := 0x100_0000

  /** A row number of a metadata table: it fits the low three bytes of a token. */
  type Row = r: nat | r < RowLimit

  /** A metadata token: the table number in the top byte, the row in the low three bytes. */
  function MakeToken(table: byte, row: nat): (t: nat)
    requires row < RowLimit
    ensures t < 0x1_0000_0000
  {
    table * RowLimit + row
  }

  function TableOf(token: nat): nat { token / RowLimit }

  function RowOf(token: nat): nat { token % RowLimit }

  /** A token's table and row read back from it. */
  lemma TokenParts(table: byte, row: nat)
    requires row < RowLimit
    ensures TableOf(MakeToken(table, row)) == table && RowOf(MakeToken(table, row)) == row
  {
  }

  /** A token's row of zero is the nil handle. */
  predicate IsNilToken(token: nat) { RowOf(token) == 0 }

  /** A 32-bit pattern read as a signed `int` (two's complement). */
  function ToInt32(u: nat): int32
    requires u < 0x1_0000_0000
  {
    if u < 0x8000_0000 then u else u - 0x1_0000_0000
  }

  /** The 32-bit value an `int` counter holds after counting up to `n` (C# `int` arithmetic wraps). */
  function WrapInt32(n: nat): (v: int32)
    ensures n < 0x8000_0000 ==> v == n
  {
    ToInt32(n % 0x1_0000_0000)
  }

  /** A signed `int` read back as its unsigned 32-bit pattern. */
  function ToUInt32(i: int32): (u: nat)
    ensures u < 0x1_0000_0000
  {
    if i >= 0 then i else i + 0x1_0000_0000
  }

  datatype TypeKind =
    | Class | Interface | Struct | Enum | Delegate | Void | Array | Pointer | ByReference
    | NInt | NUInt | FunctionPointer | Tuple | TypeParameter | Unknown | OtherKind

  /** An `IType` as the formatters see it. */
  datatype Ty = Ty(kind: TypeKind, fullName: string, name: string)

  /** The length of the "[]", "*" or "&" that ends the full name of an array, pointer or by-reference type. */
  function ElementSuffixLength(k: TypeKind): nat
  {
    if k == Array then 2 else if k == Pointer || k == ByReference then 1 else 0
  }

  /** The kinds a type definition can have: never a constructed array, pointer or by-reference type. */
  type DefKind = k: TypeKind | ElementSuffixLength(k) == 0 witness Class

  /** The types the type system hands out: a constructed type's full name ends with its suffix, so is at least that long. */
  type IType = t: Ty | ElementSuffixLength(t.kind) <= |t.fullName| witness Ty(Void, "System.Void", "Void")

  /** Which module an entity belongs to (its PE file name, when it has one) and its handle: table and row. */
  datatype EntityId = EntityId(file: Option<string>, table: nat, row: nat)

  /** A resolved `IEntity`: what a token resolves to, with the property or event owning an accessor. */
  datatype Entity = Entity(fullName: string, id: EntityId, accessorOwner: Option<Entity>)

  /** A string-heap handle: its offset in the #Strings heap and the text stored there. */
  datatype StringHandle = StringHandle(offset: nat, value: string)

  /** A blob-heap handle: its offset, and its bytes unless it is the nil handle. */
  datatype BlobHandle = BlobHandle(offset: nat, content: Option<seq<byte>>)

  datatype Variance = Invariant | Covariant | Contravariant

  datatype TypeParam = TypeParam(name: string, variance: Variance)

  /** An `IMethod` with the metadata the analyzers read about its `MethodDef` row. */
  datatype Method = Method(
    name: string,
    isStatic: bool,
    isConstructor: bool,
    row: Row,                        // MethodDef row; 0 is a nil token
    file: Option<string>,
    declaringTypeName: string,
    parameters: seq<IType>,
    returnType: IType,
    hasBody: bool,
    body: Option<seq<byte>>,         // the IL bytes; None when the RVA has no body to read
    pinvokeImpl: bool,               // MethodAttributes.PinvokeImpl
    importModule: StringHandle,      // name of the ModuleRef row its ImplMap entry names
    importName: string               // the imported symbol (ImplMap import name)
  )

  datatype Field = Field(name: string, isStatic: bool, fieldType: IType, row: Row, file: Option<string>)

  datatype Property = Property(
    name: string, isStatic: bool, propertyType: IType, row: Row, file: Option<string>,
    getter: Option<Method>, setter: Option<Method>)

  datatype Event = Event(
    name: string, isStatic: bool, eventType: IType, row: Row, file: Option<string>,
    addAccessor: Option<Method>, removeAccessor: Option<Method>, invokeAccessor: Option<Method>)

  /** The resolved definition of a base type: its kind and its `TypeDef` row in its module. */
  datatype BaseDef = BaseDef(kind: DefKind, row: Row, file: Option<string>)

  /**
   * A direct base type or implemented interface, with its definition if it resolves; the
   * type system gives a type and its definition the same `Name`.
   */
  datatype BaseType = BaseType(name: string, kind: TypeKind, definition: Option<BaseDef>)

  /** An `ITypeDefinition`; `parentModuleName` is the name of the module that declares it. */
  datatype TypeDef = TypeDef(
    name: string,
    namespace: string,
    fullName: string,
    parentModuleName: string,
    kind: DefKind,
    row: Row,
    file: Option<string>,
    typeParams: seq<TypeParam>,
    bases: seq<BaseType>,
    nested: seq<TypeDef>,
    fields: seq<Field>,
    events: seq<Event>,
    properties: seq<Property>,
    methods: seq<Method>)

  datatype AssemblyRef = AssemblyRef(name: StringHandle, version: string, flags: EnumValue, publicKeyOrToken: BlobHandle,
                                     culture: StringHandle, hashValue: BlobHandle)

  datatype TypeRefRow = TypeRefRow(resolutionScope: uint32, name: StringHandle, namespace: StringHandle)

  datatype MethodDefRow = MethodDefRow(rva: uint32, implFlags: EnumValue, flags: EnumValue, name: StringHandle, signature: BlobHandle)

  datatype MemberRefRow = MemberRefRow(parent: uint32, name: StringHandle, signature: BlobHandle)

  datatype ConstantRow = ConstantRow(typeCode: EnumValue, parent: uint32, value: BlobHandle)

  /** Width of an enum's underlying integer type. */
  datatype EnumWidth = Width8 | Width16 | Width32 | Width64 | NoIntegerWidth

  /**
   * A boxed enum value: the width of its underlying type, the bit pattern of its value
   * (unsigned, so it fits the width), and what its `ToString ()` returns.
   */
  datatype EnumValue = EnumValue(width: EnumWidth, bits: nat, text: string)

  /** The metadata tables the table views list. */
  datatype Metadata = Metadata(
    typeRefs: seq<TypeRefRow>,
    methodDefs: seq<MethodDefRow>,
    memberRefs: seq<MemberRefRow>,
    constants: seq<ConstantRow>,
    moduleRefs: seq<StringHandle>,
    assemblyRefs: seq<AssemblyRef>)

  /** A loaded `PEFile`. */
  datatype PEFile = PEFile(
    fileName: string,
    name: string,                    // the declared assembly name
    fullName: string,
    version: string,                 // the assembly version as its `ToString ()` writes it
    metadata: Metadata,
    resources: seq<string>,
    types: seq<TypeDef>)             // the top-level type definitions of its type system
}
