/**
 * How a type and a method signature are written in tree labels: the C# keyword for the
 * well-known system types (keeping an array, pointer or by-reference suffix), the type's
 * short name otherwise, and `name(T1,T2) : R` for a method.
 */
module Formatters {
  import opened Strings
  import opened TypeSystem

  /** The system types written with their C# keyword. */
  const WellKnownTypeNames: map<string, string> := map[
    "System.Void" := "void",
    "System.Boolean" := "bool",
    "System.Byte" := "byte",
    "System.SByte" := "sbyte",
    "System.Char" := "char",
    "System.Decimal" := "decimal",
    "System.Double" := "double",
    "System.Single" := "float",
    "System.Int32" := "int",
    "System.UInt32" := "uint",
    "System.Int64" := "long",
    "System.UInt64" := "ulong",
    "System.Object" := "object",
    "System.Int16" := "short",
    "System.UInt16" := "ushort",
    "System.String" := "string",
    "System.IntPtr" := "native int",
    "System.UIntPtr" := "native uint"
  ]

  /** The suffix an array, pointer or by-reference type adds to its element type's name. */
  function Suffix(k: TypeKind): (s: string)
    ensures |s| == ElementSuffixLength(k)
  {
    match k
    case Array => "[]"
    case Pointer => "*"
    case ByReference => "&"
    case _ => ""
  }

  /** What `AppendType` appends for a type. */
  function TypeName(t: IType): string
  {
    if t.kind == NInt then "nint"
    else if t.kind == NUInt then "nuint"
    else
      var suffix := Suffix(t.kind);
      var name := t.fullName[..|t.fullName| - |suffix|];
      if name in WellKnownTypeNames then WellKnownTypeNames[name] + suffix
      else t.name
  }

  function AppendType(sb: string, t: IType): string
  {
    sb + TypeName(t)
  }

  /** No two well-known types share a keyword, so a keyword names its system type. */
  lemma WellKnownKeywordsDistinct(a: string, b: string)
    requires a in WellKnownTypeNames && b in WellKnownTypeNames && a != b
    ensures WellKnownTypeNames[a] != WellKnownTypeNames[b]
  {
  }

  /** A well-known type is written as its keyword, whatever its short name. */
  lemma TypeNameWellKnown(t: IType)
    requires t.kind !in {NInt, NUInt, Array, Pointer, ByReference}
    requires t.fullName in WellKnownTypeNames
    ensures TypeName(t) == WellKnownTypeNames[t.fullName]
  {
    assert t.fullName[..|t.fullName|] == t.fullName;
  }

  /** Any other type that is not native-sized or constructed is written as its short name. */
  lemma TypeNameOther(t: IType)
    requires t.kind !in {NInt, NUInt, Array, Pointer, ByReference}
    requires t.fullName !in WellKnownTypeNames
    ensures TypeName(t) == t.name
  {
    assert t.fullName[..|t.fullName|] == t.fullName;
  }

  /** The native-sized integers are always written "nint" and "nuint". */
  lemma TypeNameNative(t: IType)
    ensures t.kind == NInt ==> TypeName(t) == "nint"
    ensures t.kind == NUInt ==> TypeName(t) == "nuint"
  {
  }

  /**
   * An array, pointer or by-reference type is written as its element's keyword followed by
   * the suffix when the element is well known, and as its own short name otherwise.
   */
  lemma TypeNameConstructed(t: IType, element: IType)
    requires t.kind in {Array, Pointer, ByReference}
    requires element.kind !in {NInt, NUInt, Array, Pointer, ByReference}
    requires t.fullName == element.fullName + Suffix(t.kind)
    ensures element.fullName in WellKnownTypeNames ==> TypeName(t) == TypeName(element) + Suffix(t.kind)
    ensures element.fullName !in WellKnownTypeNames ==> TypeName(t) == t.name
  {
    assert t.fullName[..|t.fullName| - |Suffix(t.kind)|] == element.fullName;
    assert element.fullName[..|element.fullName|] == element.fullName;
  }

  function TypeNames(ps: seq<IType>): (names: seq<string>)
    ensures |names| == |ps|
  {
    seq(|ps|, k requires 0 <= k < |ps| => TypeName(ps[k]))
  }

  /**
   * Appends each parameter type followed by a comma, then drops the last comma: the types
   * separated by single commas, and nothing for no parameters.
   */
  method AppendParameters(sb: string, ps: seq<IType>) returns (r: string)
    ensures r == sb + Join(TypeNames(ps), ",")
  {
    ghost var names := TypeNames(ps);
    r := sb;
    if |ps| > 0 {
      for k := 0 to |ps|
        invariant r == sb + Trailing(names, k)
      {
        TrailingSnoc(sb, names, k);
        r := r + TypeName(ps[k]) + ",";
      }
      TrailingDrop(sb, names);
      r := r[..|r| - 1];  // StringBuilder.Length--
    }
  }

  /** What the loop has appended after `k` parameters: each type name followed by a comma. */
  function Trailing(names: seq<string>, k: nat): string
    requires k <= |names|
  {
    if k == 0 then "" else Join(names[..k], ",") + ","
  }

  lemma TrailingSnoc(sb: string, names: seq<string>, k: nat)
    requires k < |names|
    ensures sb + Trailing(names, k) + names[k] + "," == sb + Trailing(names, k + 1)
  {
    var x := names[k];
    assert names[..k + 1] == names[..k] + [x];
    if k > 0 {
      JoinSnoc(names[..k], x, ",");
      assert Trailing(names, k + 1) == Join(names[..k], ",") + "," + x + ",";
    } else {
      assert Trailing(names, 1) == x + ",";
    }
  }

  lemma TrailingDrop(sb: string, names: seq<string>)
    requires |names| > 0
    ensures var r := sb + Trailing(names, |names|); |r| > 0 && r[..|r| - 1] == sb + Join(names, ",")
  {
    assert names[..|names|] == names;
    var j := Join(names, ",");
    assert (sb + j + ",")[..|sb + j|] == sb + j;
  }

  /** A method as the tree writes it: `name(T1,T2) : R`, the parameter types separated by single commas. */
  function MethodSignature(m: Method): string
  {
    m.name + "(" + Join(TypeNames(m.parameters), ",") + ") : " + TypeName(m.returnType)
  }

  /** A method without parameters is written `name() : R`. */
  lemma MethodSignatureNoParameters(m: Method)
    requires |m.parameters| == 0
    ensures MethodSignature(m) == m.name + "() : " + TypeName(m.returnType)
  {
  }

  /** Appends the method's signature, keeping what the builder held as a prefix. */
  method AppendMethod(sb: string, m: Method) returns (r: string)
    ensures r == sb + MethodSignature(m)
  {
    r := sb + m.name + "(";
    r := AppendParameters(r, m.parameters);
    r := AppendType(r + ") : ", m.returnType);
  }

  /** The parameter list of a signature splits back into the parameter types when no type name holds a comma. */
  lemma ParameterListSplits(ps: seq<IType>)
    requires |ps| > 0
    requires forall k :: 0 <= k < |ps| ==> ',' !in TypeName(ps[k])
    ensures Split(Join(TypeNames(ps), ","), ',') == TypeNames(ps)
  {
    SplitJoin(TypeNames(ps), ',');
  }
}
