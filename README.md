# Cilurbo core, modelled in Dafny

Cilurbo is a terminal browser for .NET assemblies. It loads a managed module and shows it as a
tree. An assembly node holds its references, module references, resources and namespaces. A
namespace holds its types, and a type holds its base types, nested types and members. Cilurbo
lists the rows of several metadata tables. Over a selected node it runs analyzers that produce
tables, which can be exported as Markdown or posted as a gist.

This project models the core of the program and proves what the code promises about it.

- **Assembly resolver** (`resolver.dfy`). A class holds the name-to-module cache and the list
  of search directories.
  - Load, Resolve and ResolveAsync are methods, each proved against a step function.
  - The lemmas state the following:
    - a failed load changes nothing;
    - the first module loaded under a name is the one cached ("first writer wins");
    - a cached name resolves without loading;
    - a miss probes only the first directory (see Findings), and the probe the loops
      evidently intend, every directory with each extension, is modelled and proved beside it;
    - over any session the cache and the directory list only grow, and the directory list
      never holds a duplicate.
  - The file system is a parameter: a map from path to a parsed module, or to `None` when
    parsing throws.
- **IL scanner** (`ilreader.dfy`, `methoduses.dfy`).
  - `Decode` reads a method body into instructions. It uses the operand sizes that ECMA-335
    Partition III gives every opcode, with `switch` read from its count. It stops where the
    reader would throw, and at a `switch` whose skip is negative. There the source's reader
    moves back instead, and `StepAsWritten` models that cursor (see Findings).
  - Decoding is proved to lay out the byte stream exactly. Decoding the bytes of any
    well-formed instruction sequence is proved to give that sequence back.
  - The `MethodUses` analyzer's loop is a method proved against that decoder. Its rows are
    proved to be:
    - one per distinct entity, in order of first use;
    - numbered 1, 2, … (with the C# `int` wrap-around written out);
    - each carrying the token of the first instruction that names the entity.
  - Activating a row selects the first tree node that shows the row's entity, or the property
    or event that owns it when the entity is an accessor.
- **P/Invoke finder and module-reference analyzer** (`pinvoke.dfy`).
  - Both tables list exactly the methods of the assembly's own top-level types that import
    from the selected module reference.
  - The rows come in (type name, method name) order.
  - The two tables differ only in the second column: the `MethodDef` token, or the bare row
    number.
- **Formatting** (`formatters.dfy`, `hex.dfy`, `tableview.dfy` module `ColumnStyles`).
  - Type names are written with C# keywords, and method signatures with their parameters
    separated by commas.
  - Hex renderings are proved to read back (`x2`, `x8`, the token text).
- **Tree nodes** (`treenodes.dfy`, `assemblynodes.dfy`).
  - Nodes are values. Each constructor's label is a function of the node's class and tag, and
    its children are built eagerly, as the constructors do.
  - The children of a type come in six groups, each in name order: bases, nested types,
    fields, events, properties, methods.
  - An assembly node lists its references, module references, resources and namespaces, each
    group sorted. Building it fails exactly when a sorted list receives a duplicate name.
- **Tree view helpers** (`treeview.dfy`).
  - `Find` is a pre-order search. It is proved sound and complete, and to return the first
    match in pre-order.
  - `Add` is a method on a `TreeView` class; it keeps one root per file name. `Select` expands
    the ancestors outermost first, then selects the node.
- **Metadata tables** (`metadatatables.dfy`).
  - Covers the TypeRef, MethodDef, MemberRef, Constant, ModuleRef and AssemblyRef views, with
    their blob, enum, token and scope renderings.
  - The `MetadataTables` list and its dispatch from a table's name.
  - The Constant view of MetadataTables.cs drops the last row, and the dispatch from the
    table's name uses that view (see Findings).
- **Text output** (`textoutput.dfy`). `StringBuilderTextOutput` is a class over a shared
  `StringBuilder` class.
  - Every call is proved against a step function on the output's state.
  - Output is append-only.
  - The first write after a line break gets exactly the current level's indentation, and
    later writes on the same line get none.
- **SimpleGist** (`gist.dfy`).
  - `AddFile` escaping, with its length and read-back properties.
  - The JSON body `CreateAsync` builds, line by line. As written, the body puts no comma
    between two file entries, so a request with several files is not valid JSON; the model
    keeps the body as written.
  - The URL the response constructor extracts.
- **Markdown export and Ctrl+D** (`tableview.dfy`, module `TableViews`).
  - `ExportMarkdown` of the table view and of the analyzer view write exactly the lines proved
    by `MarkdownSpec` and `AnalyzerMarkdownSpec`.
  - The Ctrl+D search symbol is proved to be the selected row's entity name for each
    analyzer.

Shared helpers live in `wrappers.dfy` (`Option`), `strings.dfy`, `sorting.dfy`, `lines.dfy`,
`datatables.dfy` (a `DataTable` as columns, rows and extended properties) and `typesystem.dfy`
(tokens, `int` wrap-around).

Where the behaviour written in the code differs from a description of the program's intent,
the model follows the code:
- `Load` returns a parsed module even when its name is already cached, without caching it.
- `Resolve` on a miss probes only the first search directory.
- The Constant table of MetadataTables.cs loops `row < count`, and `GetTable` uses it.
- `AddFile` escapes no backslash and no control character other than CR, LF and tab.

One place departs from the code: the IL decoder stops at a negative `switch` skip, where the
source's reader rewinds (see "Left out" and Findings).

Sorting by name uses ordinal string order.

## Model

| member | source | states |
|---|---|---|
| Resolver.LoadStep | AssemblyResolver.cs:18-35 | `Load (file)` as a value: a missing or unreadable file gives null and the same state; otherwise the module, cached under its name and with its directory added only when the name is new (`LoadFailureChangesNothing`, `LoadFirstWriterWins`, `ApplyGrows`). |
| Resolver.ResolveStep | AssemblyResolver.cs:37-50 | `Resolve (reference)` as a value: a cached name returns its module unchanged; otherwise only the first directory with ".dll" is loaded (`ResolveCached`, `ResolveProbesOneCandidate`, `LoadThenResolve`). |
| Resolver.AssemblyResolver.constructor | AssemblyResolver.cs:7-9 | A new resolver has an empty cache and no search directory. |
| Resolver.AssemblyResolver.AddSearchDirectory | AssemblyResolver.cs:11-16 | Appends a directory unless it is null or already listed; the list stays free of duplicates. |
| Resolver.AssemblyResolver.Load | AssemblyResolver.cs:18-35 | A missing or unparsable file gives null and changes nothing; a module whose name is new is cached and its directory added; otherwise the module is returned uncached. |
| Resolver.AssemblyResolver.Resolve | AssemblyResolver.cs:37-50 | The cached module for the name, or else the load of the first directory combined with name + ".dll"; null with no directory. |
| Resolver.AssemblyResolver.ResolveAsync | AssemblyResolver.cs:52-57 | Completes with exactly what `Resolve` returns and has the same effect. |
| Resolver.LoadFailureChangesNothing | AssemblyResolver.cs:20-23 | Loading a missing or unparsable path returns null and leaves cache and directories unchanged. |
| Resolver.LoadFirstWriterWins | AssemblyResolver.cs:26-30 | A loaded module is always returned; it is cached only when its name is new, and a directory is added only then. |
| Resolver.ResolveCached | AssemblyResolver.cs:39-41 | A cached name resolves to the cached module without loading and without changing state. |
| Resolver.ResolveProbesOneCandidate | AssemblyResolver.cs:43-49 | On a miss, only the first directory with ".dll" is probed: the nested loops return on their first iteration. |
| Resolver.LoadThenResolve | AssemblyResolver.cs:18-50 | Loading a file with a new name and then resolving that name gives the same module without a second load. |
| Resolver.ApplyGrows | AssemblyResolver.cs:11-50 | Each operation keeps the directory list duplicate-free and never removes or replaces a cache or directory entry. |
| Resolver.RunGrows | AssemblyResolver.cs:11-57 | Over any sequence of operations the cache and directory list only grow and the directories stay distinct. |
| Resolver.Candidates | AssemblyResolver.cs:43-47 | Two candidate paths per search directory. |
| Resolver.CandidatesAt | AssemblyResolver.cs:43-47 | Directory by directory, ".dll" before ".exe": candidates 2i and 2i + 1 are directory i with each extension. |
| Resolver.CandidatesLoad | AssemblyResolver.cs:43-47 | Some candidate loads exactly when some directory holds the name with some extension. |
| Resolver.CandidateLoads | AssemblyResolver.cs:43-47 | A loading candidate is some directory with some extension. |
| Resolver.ProbeAllSpec | AssemblyResolver.cs:43-49 | The intended probe finds a module exactly when some candidate loads, and then it is the load of the first one; otherwise nothing changes. |
| Resolver.ResolveIntendedSpec | AssemblyResolver.cs:37-50 | Resolving as intended finds a module exactly when some directory holds the name with some extension, changes nothing on failure, and agrees with the code when the first candidate loads. |
| Resolver.ResolveMissesSecondDirectory | AssemblyResolver.cs:43-49 | As written, a module only in the second directory is not found; the intended probe finds and caches it. |
| ILReader.IsTokenOpCode | Analyzers/MethodUses.cs:70-82 | The twelve token opcodes all carry a four-byte operand, the token read by `ReadInt32`. |
| ILReader.OperandSizeOf | Analyzers/MethodUses.cs:97-98 | Every opcode's operand is 0, 1, 2, 4 or 8 bytes, except `switch` (0x45), whose size follows from its count. |
| ILReader.ReadUInt32 | Analyzers/MethodUses.cs:82 | Four bytes read little-endian give a value below 2^32. |
| ILReader.TokenOf | Analyzers/MethodUses.cs:82 | The token operand of a token instruction is a 32-bit value. |
| ILReader.DecodeFirst | Analyzers/MethodUses.cs:68 | A successful read yields a well-formed instruction whose bytes are a prefix of the stream; None where the reader throws, and at a negative `switch` skip. |
| ILReader.StepAsWritten | Analyzers/MethodUses.cs:67-99 | The source's cursor after one instruction, with the signed `switch` skip; it never leaves the stream, and None where the reader throws. |
| ILReader.StepAsWrittenAgrees | Analyzers/MethodUses.cs:67-99 | Where the model reads an instruction, the source's cursor moves to just after it; the source's cursor goes back or stays only where the model stops. |
| ILReader.AgreesSwitch | Analyzers/MethodUses.cs:98 | For a `switch` the model reads, the source's signed skip lands just after the targets. |
| ILReader.AgreesFixed | Analyzers/MethodUses.cs:68-98 | For any other instruction the model reads, the source's cursor lands just after its operand. |
| ILReader.RewindingCount | Analyzers/MethodUses.cs:98 | The count 0xFFFFFFFE times four is −8 as a signed 32-bit value, a skip the model refuses. |
| ILReader.RewindingSteps | Analyzers/MethodUses.cs:98 | On three `nop`s and a `switch` with count 0xFFFFFFFE, the source's cursor goes 0, 1, 2, 3 and back to 0. |
| ILReader.RewindingCycle | Analyzers/MethodUses.cs:67-99 | When the first four positions step round in a cycle, the loop's cursor stays among them after any number of turns. |
| ILReader.SwitchRewindsForever | Analyzers/MethodUses.cs:67-99 | As written, the scan of that body never reaches the end and never throws; the model reads the three `nop`s and stops, incomplete. |
| ILReader.RewindingStops | Analyzers/MethodUses.cs:67-99 | The model decodes that body as three `nop`s and an incomplete end. |
| ILReader.DecodeNop | Analyzers/MethodUses.cs:67-99 | A leading `nop` is decoded, followed by the decoding of the rest. |
| ILReader.DecodeSwitchStop | Analyzers/MethodUses.cs:67-99 | A leading `switch` whose skip is negative ends the model's decoding. |
| ILReader.Decode | Analyzers/MethodUses.cs:67-101 | The instructions read are well formed; they lay out the whole stream when decoding completes, and a proper prefix when a read fails. |
| ILReader.DecodeCons | Analyzers/MethodUses.cs:67-68 | A successful read at the front is followed by the decoding of the remaining bytes. |
| ILReader.LayoutCons | Analyzers/MethodUses.cs:67-101 | An instruction read off the front followed by a decoding of the rest lays out the stream as the rest does. |
| ILReader.DecodeFirstRaw | Analyzers/MethodUses.cs:68 | The reader recognises any well-formed instruction at the head of a stream, whatever follows it. |
| ILReader.DecodeFixedRaw | Analyzers/MethodUses.cs:97-98 | The fixed-operand case of `DecodeFirstRaw`. |
| ILReader.DecodeSwitchRaw | Analyzers/MethodUses.cs:97-98 | The `switch` case of `DecodeFirstRaw`: the count, then that many four-byte targets. |
| ILReader.FlattenCons | Analyzers/MethodUses.cs:67-101 | The bytes of an instruction sequence are the first instruction's bytes followed by the rest's. |
| ILReader.DecodeFlatten | Analyzers/MethodUses.cs:67-101 | Decoding the bytes of well-formed instructions gives back those instructions, completely. |
| ILReader.DecodeFlattenComplete | Analyzers/MethodUses.cs:67-101 | Re-encoding a complete decoding and decoding again gives the same decoding. |
| ILReader.ReadingStart | Analyzers/MethodUses.cs:67 | At position 0 with nothing read, the loop's decoding invariant holds. |
| ILReader.ReadingStep | Analyzers/MethodUses.cs:67-68 | One successful read advances the position strictly, within the stream, and keeps the invariant. |
| ILReader.ResumedCons | Analyzers/MethodUses.cs:67-68 | Resuming after one more instruction gives the same whole decoding. |
| ILReader.ReadingFail | Analyzers/MethodUses.cs:68 | A failed read ends the decoding at that position. |
| ILReader.ReadingEnd | Analyzers/MethodUses.cs:67 | When the stream is used up or a read failed, the instructions read are exactly the decoding. |
| MethodUses.ApplicableToMethodNodes | Analyzers/MethodUses.cs:22-25 | The analyzer applies to method and constructor nodes and to no other node, nor to null. |
| MethodUses.EnclosingAssembly | Analyzers/MethodUses.cs:27-32 | The walk up returns a prefix of the node's path, that is, the node itself or one of its ancestors. |
| MethodUses.EnclosingAssemblySpec | Analyzers/MethodUses.cs:27-32 | The walk finds the nearest assembly node among the node and its ancestors, and fails exactly when there is none. |
| MethodUses.EnclosingAssemblyUnderRoot | Analyzers/MethodUses.cs:27-32 | Under an assembly root, as every root of the tree view is, the walk succeeds. |
| MethodUses.Uses | Analyzers/MethodUses.cs:82-95 | At most one use per instruction, each token a 32-bit value. |
| MethodUses.Rows | Analyzers/MethodUses.cs:91-95 | One row per use. |
| MethodUses.UsesSnoc | Analyzers/MethodUses.cs:82-95 | One more instruction adds its hit exactly when the hit is resolvable, non-nil and not yet used. |
| MethodUses.RowsSnoc | Analyzers/MethodUses.cs:91-95 | One more use adds one row numbered by the use's position. |
| MethodUses.Record | Analyzers/MethodUses.cs:69-99 | One pass of the loop body keeps the scan invariant over one more instruction. |
| MethodUses.Advance | Analyzers/MethodUses.cs:67-100 | One loop turn either stops on a failed read without moving or moves strictly forward, keeping both invariants. |
| MethodUses.Consume | Analyzers/MethodUses.cs:68-99 | The successful half of a turn moves past the instruction's bytes and keeps both invariants. |
| MethodUses.ScanBody | Analyzers/MethodUses.cs:64-101 | The loop produces exactly the rows `BodyRows` gives, and reports whether the whole body was read. |
| MethodUses.UsesAnalysis | Analyzers/MethodUses.cs:34-102 | `SetTable` as a value: the schema always; the properties and the body's rows only for a method node under an assembly node holding a file (`SchemaAlways`, `BodyRowsSpec`, `ShowsSpec`). |
| MethodUses.SetTable | Analyzers/MethodUses.cs:34-102 | The analysis of the node: the schema always, then the checks, the properties (the file, "Metadata" = "0x06 MethodDef", the analyzer, a metadata module) and the rows. |
| MethodUses.SchemaAlways | Analyzers/MethodUses.cs:36-60 | The three-column schema is set in every case; a node that is not a member or has no member tag yields no rows and no properties; any properties set are the file, "Metadata" = "0x06 MethodDef", this analyzer and a metadata module, and a table with rows always has them. |
| MethodUses.UsesDistinct | Analyzers/MethodUses.cs:88-90 | No entity is listed twice. |
| MethodUses.UsesFirst | Analyzers/MethodUses.cs:82-95 | Every listed use is the hit of an instruction with no earlier instruction hitting the same entity. |
| MethodUses.UsesComplete | Analyzers/MethodUses.cs:82-90 | Every instruction naming a resolvable, non-nil token has its entity listed. |
| MethodUses.FlattenLength | Analyzers/MethodUses.cs:67-68 | A stream holds at least as many bytes as instructions. |
| MethodUses.BodyRowsSpec | Analyzers/MethodUses.cs:65-101 | One row per distinct entity, numbered with the wrapping `int` counter (1, 2, … for bodies under 2^31 bytes), each with its first token and the entity's full name; complete exactly when decoding is. |
| MethodUses.ShowsSpec | Analyzers/MethodUses.cs:114-122 | The selection predicate holds exactly of nodes whose entity has the same file name and the same handle. |
| MethodUses.ToInt32RoundTrip | Analyzers/MethodUses.cs:93 | A token stored as an `int` cell reads back as the same 32-bit token. |
| MethodUses.ActivationOfUse | Analyzers/MethodUses.cs:104-113 | Activating row k of a uses table targets the k-th use's entity, or its owning property or event when it is an accessor. |
| MethodUses.UsesResolve | Analyzers/MethodUses.cs:85 | Every listed use carries the entity its token resolves to. |
| MethodUses.UseRowTarget | Analyzers/MethodUses.cs:107-113 | Row k targets the k-th use's entity, redirected to the owner of an accessor. |
| MethodUses.OnActivation | Analyzers/MethodUses.cs:104-124 | Selects the first node in pre-order that shows the row's target, expanding its ancestors; does nothing when there is no target or no such node; the roots never change. |
| PInvokeFinder.ApplicableToModuleReferences | Analyzers/PInvokeFinder.cs:22-25 | The finder applies exactly to module-reference nodes. |
| PInvokeFinder.TargetSpec | Analyzers/PInvokeFinder.cs:42-49 | The target exists exactly when the node is a module reference with a module-reference tag under an assembly node tagged with its file. |
| PInvokeFinder.MethodFinds | Analyzers/PInvokeFinder.cs:60-72 | Every find is a method of the type, from the list, importing from the module reference. |
| PInvokeFinder.Finds | Analyzers/PInvokeFinder.cs:55-82 | The listing over the assembly's types sorted by name: exactly the P/Invoke imports from the module reference, in type-name then method-name order (`FindsSpec`, `FindsOrder`). |
| PInvokeFinder.FindsIn | Analyzers/PInvokeFinder.cs:55-82 | Every find belongs to a listed type of the assembly's own module. |
| PInvokeFinder.FoundRows | Analyzers/PInvokeFinder.cs:73-80 | One row per find. |
| PInvokeFinder.FindsInSnoc | Analyzers/PInvokeFinder.cs:55-82 | One more type appends its own finds. |
| PInvokeFinder.MethodFindsSnoc | Analyzers/PInvokeFinder.cs:60-72 | One more method is appended exactly when it imports from the module reference. |
| PInvokeFinder.FoundRowsSnoc | Analyzers/PInvokeFinder.cs:73-80 | One more find appends one row numbered by its position. |
| PInvokeFinder.ImportText | Analyzers/PInvokeFinder.cs:73 | The builder holds the type's name, a dot and the method's name. |
| PInvokeFinder.ImportRow | Analyzers/PInvokeFinder.cs:73-80 | One row with the current result number, the handle column and the builder's text. |
| PInvokeFinder.ListTypeImports | Analyzers/PInvokeFinder.cs:60-81 | The inner loop appends the rows of the type's imports from the module reference, in the order given, and advances the counter by their number. |
| PInvokeFinder.ListImports | Analyzers/PInvokeFinder.cs:55-82 | The outer loop produces the rows of all finds, types in name order. |
| PInvokeFinder.FinderTable | Analyzers/PInvokeFinder.cs:27-83 | The finder's table as a value: four columns always, and rows and properties only for a module-reference node with a target (`TablesSpec`, `FoundRowsSpec`). |
| PInvokeFinder.ReferenceTable | Analyzers/ModuleReferenceAnalyzers.cs:26-76 | The module-reference table as a value: no columns for a node without a target; otherwise the schema, the properties and one row per find (`TablesSpec`, `FoundRowsSpec`). |
| PInvokeFinder.SetTable | Analyzers/PInvokeFinder.cs:27-83 | The finder's table: the four columns, then the checks, the properties (the file, "Metadata" = "0x1A ModuleRef", the analyzer) and the rows. |
| PInvokeFinder.GetTable | Analyzers/ModuleReferenceAnalyzers.cs:26-76 | The module-reference table: the checks, then the properties (the file, "Metadata" = "0x1A ModuleRef", the analyzer), the columns and the rows. |
| PInvokeFinder.MethodFindsExact | Analyzers/PInvokeFinder.cs:60-72 | A method of the type is listed exactly when it imports from the module reference. |
| PInvokeFinder.MethodFindsSorted | Analyzers/PInvokeFinder.cs:60 | Within one type the listed methods ascend by name. |
| PInvokeFinder.FindsInExact | Analyzers/PInvokeFinder.cs:55-72 | A method is listed exactly when it imports from the module reference and an own top-level type declares it. |
| PInvokeFinder.TypeFindsExact | Analyzers/PInvokeFinder.cs:57-72 | A type lists exactly its own imports from the module reference, and only when it is of the module. |
| PInvokeFinder.FindsExact | Analyzers/PInvokeFinder.cs:55-82 | A method is in the listing exactly when an own top-level type declares it and it imports from the module reference. |
| PInvokeFinder.FindsInTypeOrder | Analyzers/PInvokeFinder.cs:55 | Types sorted by name give finds ascending by their type's name. |
| PInvokeFinder.NameOrderedAppend | Analyzers/PInvokeFinder.cs:55-82 | Two (type, method)-ordered listings with different type names concatenate into an ordered one. |
| PInvokeFinder.OneOwnerNameOrdered | Analyzers/PInvokeFinder.cs:60 | The methods of one type, sorted by name, are in (type, method) order. |
| PInvokeFinder.FindsInNameOrder | Analyzers/PInvokeFinder.cs:55-60 | When no two own top-level types share a name, the finds are in (type name, method name) order. |
| PInvokeFinder.SortByDistinctKeys | Analyzers/PInvokeFinder.cs:55 | Sorting keeps distinct keys distinct. |
| PInvokeFinder.FindsSpec | Analyzers/PInvokeFinder.cs:55-82 | Every listed method imports from the module reference and is declared by an own top-level type, and every such method is listed. |
| PInvokeFinder.FindsOrder | Analyzers/PInvokeFinder.cs:55-60 | Rows ascend by type name, and by (type, method) when type names are distinct. |
| PInvokeFinder.FoundRowsSpec | Analyzers/PInvokeFinder.cs:73-80 | Result numbers 1, 2, … (wrapping as `int`); the second column is the `MethodDef` token for the finder and the bare row number for the reference analyzer; then the type and method, and the import name. |
| PInvokeFinder.TablesSpec | Analyzers/ModuleReferenceAnalyzers.cs:28-44 | Both tables keep their schema; without a target the finder has no rows and the reference table no columns, and neither has properties; with one, both have one row per find and carry the file, "Metadata" = "0x1A ModuleRef" and the finder analyzer. |
| PInvokeFinder.HandleOfToken | Analyzers/PInvokeFinder.cs:85-99 | Or-ing the `MethodDef` table into a token read back from its cell gives the same token. |
| PInvokeFinder.FoundRowHandle | Analyzers/PInvokeFinder.cs:85-99 | Row k of a finder table activates the `MethodDef` token of the k-th find. |
| PInvokeFinder.ActivationOfFinderRow | Analyzers/PInvokeFinder.cs:85-99 | Activating row k looks for the member of the same file whose handle is the k-th listed method's `MethodDef` row. |
| PInvokeFinder.OnActivation | Analyzers/PInvokeFinder.cs:85-99 | Selects the first node in pre-order showing that member; nothing changes without a handle or a match; the roots never change. |
| Formatters.TypeName | Formatters.cs:32-73 | `AppendType`'s text: "nint"/"nuint" for native integers, the keyword plus the suffix for a well-known full name, otherwise the short name (`TypeNames`, `TypeNameWellKnown`, `TypeNameOther`, `TypeNameNative`, `TypeNameConstructed`). |
| Formatters.Suffix | Formatters.cs:40-48 | The suffix of an array, pointer or by-reference type has the length the stripping step removes. |
| Formatters.WellKnownKeywordsDistinct | Formatters.cs:7-30 | No two well-known types share a keyword. |
| Formatters.TypeNameWellKnown | Formatters.cs:66-71 | A well-known type is written as its keyword. |
| Formatters.TypeNameOther | Formatters.cs:72 | Any other plain type is written as its short name. |
| Formatters.TypeNameNative | Formatters.cs:36-39 | Native-sized integers are written "nint" and "nuint". |
| Formatters.TypeNameConstructed | Formatters.cs:40-72 | An array, pointer or by-reference type of a well-known element is the keyword and the suffix, otherwise its short name. |
| Formatters.TypeNames | Formatters.cs:75-86 | One written type per parameter. |
| Formatters.AppendParameters | Formatters.cs:75-86 | Appends the parameter types separated by single commas, nothing for none, keeping the builder's text as a prefix. |
| Formatters.TrailingSnoc | Formatters.cs:78-82 | One more parameter appends its type and a comma. |
| Formatters.TrailingDrop | Formatters.cs:83-84 | Dropping the last comma leaves the comma-separated list. |
| Formatters.MethodSignatureNoParameters | Formatters.cs:75-86 | A method without parameters is written `name() : R`. |
| Formatters.MethodSignature | Formatters.cs:75-86 | `AppendMethod`'s text: the name, the parameter types separated by commas in parentheses, " : " and the return type (`MethodSignatureNoParameters`, `ParameterListSplits`, `AppendMethod`). |
| Formatters.AppendMethod | Formatters.cs:75-86 | Appends the method's signature after what the builder held. |
| Formatters.ParameterListSplits | Formatters.cs:75-86 | The parameter list splits back into the parameter types when no type name holds a comma. |
| HexFormat.Hex | ColumnStyles.cs:10 | The rendering has exactly `width` digits. |
| HexFormat.HexDigits | ColumnStyles.cs:10 | Every character written is a lowercase hex digit. |
| HexFormat.ParseHexOfHex | ColumnStyles.cs:10 | A value that fits the width reads back exactly. |
| HexFormat.HexInjective | ColumnStyles.cs:10 | Values that fit the width render differently. |
| HexFormat.HexConcat | MetadataTables/MetadataTable.cs:96-107 | Writing a in w digits then b in k digits is writing a·16^k + b in w + k digits. |
| HexFormat.BytesHex | MetadataTables/MetadataTable.cs:13-25 | Two digits per byte. |
| HexFormat.BytesHexAt | MetadataTables/MetadataTable.cs:13-25 | Byte i's two digits sit at positions 2i and 2i + 1. |
| HexFormat.ParseBytesHex | MetadataTables/MetadataTable.cs:13-25 | The blob rendering reads back to its bytes. |
| HexFormat.ParseBytesSnoc | MetadataTables/MetadataTable.cs:13-25 | Two more digits read as one more byte. |
| ColumnStyles.IntHex8 | ColumnStyles.cs:7-13 | The representation getter: an int as "0x" and eight hex digits of its 32-bit pattern, any other value as its text (`IntHex8Spec`). |
| ColumnStyles.IntHex8Spec | ColumnStyles.cs:7-13 | An int shows as "0x" and eight lowercase hex digits that read back to its two's-complement pattern and to the int; negative exactly when the pattern is at least 0x80000000. |
| TypeSystem.MakeToken | MetadataTables/MetadataTable.cs:96-107 | A token is a 32-bit value. |
| TypeSystem.TokenParts | MetadataTables/MetadataTable.cs:96-107 | A token's table and row read back from it. |
| TypeSystem.WrapInt32 | Analyzers/MethodUses.cs:92 | The wrapping counter agrees with the count below 2^31. |
| TypeSystem.ToUInt32 | Analyzers/MethodUses.cs:108 | A signed `int` read back as a pattern below 2^32. |
| DataTables.ColumnNames | ExportableTableView.cs:30-31 | One name per column, in column order. |
| TableViews.Writer.WriteLine | ExportableTableView.cs:32 | `WriteLine` appends the text and a line feed. |
| TableViews.Padded | ExportableTableView.cs:31 | One padded cell per part. |
| TableViews.WroteCell | ExportableTableView.cs:52-53 | Writing one more cell extends the written row by that cell. |
| TableViews.LineSplit | ExportableTableView.cs:30-32 | A row line splits at its bars into an empty piece, each padded part, and an empty piece. |
| TableViews.LineNoBreak | ExportableTableView.cs:51-55 | A row line holds no line break when its parts hold none. |
| TableViews.AlignMarkers | ExportableTableView.cs:34-48 | One marker per column. |
| TableViews.RowTexts | ExportableTableView.cs:52-53 | One text per column. |
| TableViews.MarkdownLines | ExportableTableView.cs:28-57 | The header, the alignment row and one line per data row. |
| TableViews.MarkdownSpec | ExportableTableView.cs:28-57 | Read line by line, the export is exactly its 2 + rows lines, each ended by a line break. |
| TableViews.MarkdownNoBreaks | ExportableTableView.cs:28-57 | No export line holds a line break when no cell does. |
| TableViews.RowNoBreaks | ExportableTableView.cs:51-55 | No data line holds a line break when no cell does. |
| TableViews.HeaderSpec | ExportableTableView.cs:30-32 | The header splits at its bars into the column names, in order. |
| TableViews.AlignSpec | ExportableTableView.cs:34-49 | The alignment row gives strings ":----", 16-, 32- and 64-bit integers "----:", every other type ":---:". |
| TableViews.RowSpec | ExportableTableView.cs:51-55 | Data line k has one cell per column, holding the text of row k's cell. |
| TableViews.ExportableTableView.constructor | ExportableTableView.cs:9-13 | A new view over a table has no title. |
| TableViews.ExportableTableView.ExportMarkdown | ExportableTableView.cs:28-57 | Appends exactly the table's Markdown to the writer. |
| TableViews.WriteHeader | ExportableTableView.cs:30-32 | Writes the header line. |
| TableViews.WriteAlignment | ExportableTableView.cs:34-49 | Writes the alignment line. |
| TableViews.MarkerCell | ExportableTableView.cs:35-47 | Each marker cell is the one the switch writes. |
| TableViews.WriteRow | ExportableTableView.cs:51-55 | Writes one data line, one cell per column. |
| TableViews.TitleLines | Analyzers/AnalyzerView.cs:33-40 | The heading, then the Assembly and Location lines only when the table records a module (`AnalyzerLinesShape`, `TitleNoBreaks`). |
| TableViews.AnalyzerLines | Analyzers/AnalyzerView.cs:29-46 | The title block, the table's Markdown lines, a blank line and the footer (`AnalyzerLinesShape`, `AnalyzerMarkdownSpec`). |
| TableViews.AnalyzerLinesShape | Analyzers/AnalyzerView.cs:29-46 | The heading, a blank line, the Assembly and Location lines only when the table has a module, a blank line, the table's lines, a blank line and the footer. |
| TableViews.AnalyzerMarkdownSpec | Analyzers/AnalyzerView.cs:29-46 | Read line by line, an analyzer export is exactly those lines. |
| TableViews.TitleNoBreaks | Analyzers/AnalyzerView.cs:33-40 | The title lines hold no line break when the module's names hold none. |
| TableViews.HeadingNoBreak | Analyzers/AnalyzerView.cs:33 | The heading holds no line break. |
| TableViews.FooterNoBreak | Analyzers/AnalyzerView.cs:44 | The footer holds no line break. |
| TableViews.AnalyzerView.constructor | Analyzers/AnalyzerView.cs:9-15 | A new analyzer view wraps a fresh table view with no title. |
| TableViews.AnalyzerView.ExportMarkdown | Analyzers/AnalyzerView.cs:29-46 | Appends the analyzer export (nothing without an analyzer); the title becomes the analyzer's name; the table is unchanged. |
| TableViews.WriteAnalysis | Analyzers/AnalyzerView.cs:33-44 | Writes the title block, the table, a blank line and the footer. |
| TableViews.WriteTitle | Analyzers/AnalyzerView.cs:33-41 | Writes the heading, the assembly and location when there is a module, and a blank line. |
| TableViews.WriteListed | Analyzers/AnalyzerView.cs:33-44 | Writing the next line of a list extends the written lines by one. |
| TableViews.DashSymbol | Analyzers/AnalyzerView.cs:17-27 | A search happens only with an analyzer and a selected row, and its symbol is that row's string cell in the searchable column. |
| TableViews.DashOnUses | Analyzers/AnalyzerView.cs:20-24 | On a MethodUses table, Ctrl+D searches for the selected use's full name. |
| TableViews.DashOnFinds | Analyzers/AnalyzerView.cs:20-24 | On either P/Invoke table, Ctrl+D searches for the selected find's entry point. |
| TableViews.DashOnFoundRows | Analyzers/AnalyzerView.cs:20-24 | On a finder table over any finds, Ctrl+D searches for the k-th entry point. |
| TextLines.LinesSplit | Analyzers/AnalyzerView.cs:33-44 | Text written with `WriteLine` splits back at line feeds into the lines written. |
| MetadataTable.BlobText | MetadataTables/MetadataTable.cs:13-25 | "nil" for the nil blob, otherwise two lowercase hex digits per byte (`BlobTextSpec`, `BlobTextInjective`). |
| MetadataTable.GetBlob | MetadataTables/MetadataTable.cs:13-25 | The blob cell: "nil" or each byte's two digits, after the offset prefix in the offset style. |
| MetadataTable.BlobTextSpec | MetadataTables/MetadataTable.cs:13-25 | A blob renders as "nil" exactly when it is nil, otherwise two digits per byte that read back exactly. |
| MetadataTable.BlobTextInjective | MetadataTables/MetadataTable.cs:13-25 | Different blob contents render differently. |
| MetadataTable.TaggedParse | MetadataTables.cs:44-56 | The offset prefix reads back: the first ']' closes the decimal offset and the content follows. |
| MetadataTable.EnumText | MetadataTables/MetadataTable.cs:27-52 | The value in hex at its type's width, then the name in parentheses when there is one (`EnumTextSpec`, `EnumTextInjective`). |
| MetadataTable.EnumTextSpec | MetadataTables/MetadataTable.cs:27-52 | The hex part reads back the value, and a name follows in parentheses. |
| MetadataTable.EnumTextInjective | MetadataTables/MetadataTable.cs:27-52 | Two values of one enum type that render alike are equal. |
| MetadataTable.TokenTextSpec | MetadataTables/MetadataTable.cs:96-107 | The token text is the table in two digits and the row in six, and reads back to both. |
| MetadataTable.TokenDigits | MetadataTables/MetadataTable.cs:96-107 | The token text splits into table and row digits. |
| MetadataTable.StringColumns | MetadataTables/MetadataTable.cs:73-80 | One string column per name, in order. |
| MetadataTable.CreateTable | MetadataTables/MetadataTable.cs:73-80 | A table recording its file as "PE" and its name as "Metadata", with "RID" as its only column so far (`BuiltShape`). |
| MetadataTable.BuiltShape | MetadataTables/MetadataTable.cs:73-80 | A built table records its module and name, has rows as wide as its columns, and numbers its rows 1, 2, …. |
| MetadataTable.ScopeText | MetadataTables/MetadataTable.cs:96-107 | The ResolutionScope cell: "0x" and the token, then the assembly or enclosing type name by the bit tests; None when that row does not exist (`ScopeClassification`, `ScopeTextSpec`). |
| MetadataTable.ScopeClassification | MetadataTables/MetadataTable.cs:96-107 | The bit tests on a resolution scope classify AssemblyRef and then TypeRef tokens exactly. |
| MetadataTable.ScopeTextSpec | MetadataTables/MetadataTable.cs:96-107 | Module and ModuleRef scopes show the token; AssemblyRef and TypeRef scopes resolve exactly when their row exists and then add its name. |
| MetadataTable.TypeRefCells | MetadataTables/MetadataTable.cs:108-115 | A TypeRef row is numbered by its RID and as wide as the columns. |
| MetadataTable.TypeRefListing | MetadataTables/MetadataTable.cs:84-118 | The TypeRef table exists exactly when every scope resolves, and then lists every row. |
| MetadataTable.ReadTypeRefRow | MetadataTables/MetadataTable.cs:108-115 | One row through the shared buffer, which it leaves empty; fails exactly when its scope cannot be looked up. |
| MetadataTable.GetTypeRefTable | MetadataTables/MetadataTable.cs:84-118 | The loop builds exactly the TypeRef listing. |
| MetadataTable.MethodDefCells | MetadataTables/MetadataTable.cs:122-148 | A MethodDef row is numbered by its RID and as wide as the columns. |
| MetadataTable.MethodDefListing | MetadataTables/MetadataTable.cs:122-148 | Every method definition listed in order; the last column is always null. |
| MetadataTable.MethodDefRows | MetadataTables/MetadataTable.cs:122-148 | One row per method definition. |
| MetadataTable.ReadMethodDefRow | MetadataTables/MetadataTable.cs:122-148 | One MethodDef row as the loop body builds it. |
| MetadataTable.GetMethodDefTable | MetadataTables/MetadataTable.cs:122-148 | The method builds exactly the MethodDef listing. |
| MetadataTable.ReadMethodDefRows | MetadataTables/MetadataTable.cs:122-148 | The loop builds one row per method definition, in table order. |
| MetadataTable.MemberRefCells | MetadataTables/MetadataTable.cs:152-172 | A MemberRef row is numbered by its RID and as wide as the columns. |
| MetadataTable.MemberRefListing | MetadataTables/MetadataTable.cs:152-172 | Every member reference listed in order. |
| MetadataTable.ReadMemberRefRow | MetadataTables/MetadataTable.cs:152-172 | One MemberRef row as the loop body builds it. |
| MetadataTable.GetMemberRefTable | MetadataTables/MetadataTable.cs:152-172 | The method builds exactly the MemberRef listing. |
| MetadataTable.ConstantCells | MetadataTables/MetadataTable.cs:176-197 | A Constant row is numbered by its RID and as wide as the columns. |
| MetadataTable.ConstantRows | MetadataTables/MetadataTable.cs:176-197 | The first `count` constants listed in order. |
| MetadataTable.ConstantListing | MetadataTables/MetadataTable.cs:176-197 | Every constant, RID 1 to the row count. |
| MetadataTable.ReadConstantRow | MetadataTables/MetadataTable.cs:185-195 | The row for a 1-based row number. |
| MetadataTable.GetConstantTable | MetadataTables/MetadataTable.cs:176-197 | The `row <= count` loop builds exactly the Constant listing. |
| MetadataTable.ModuleRefCells | MetadataTables/MetadataTable.cs:201-218 | A ModuleRef row is numbered by its RID and as wide as the columns. |
| MetadataTable.ModuleRefListing | MetadataTables/MetadataTable.cs:201-218 | Every module reference listed in order, with its name in the last column. |
| MetadataTable.GetModuleRefTable | MetadataTables/MetadataTable.cs:201-218 | The `row <= count` loop builds exactly the ModuleRef listing. |
| MetadataTable.AssemblyRefCells | MetadataTables/MetadataTable.cs:222-248 | An AssemblyRef row is numbered by its RID and as wide as the columns. |
| MetadataTable.AssemblyRefRows | MetadataTables/MetadataTable.cs:222-248 | One row per assembly reference. |
| MetadataTable.AssemblyRefListing | MetadataTables/MetadataTable.cs:222-248 | Every assembly reference listed in order. |
| MetadataTable.ReadAssemblyRefRow | MetadataTables/MetadataTable.cs:222-248 | One AssemblyRef row as the loop body builds it. |
| MetadataTable.ReadAssemblyRefRows | MetadataTables/MetadataTable.cs:222-248 | The loop builds one row per reference, in table order. |
| MetadataTable.GetAssemblyRefTable | MetadataTables/MetadataTable.cs:222-248 | The method builds exactly the AssemblyRef listing. |
| MetadataTables.GetTable | MetadataTables.cs:99-117 | A table exists exactly for the four listed names and records its module and name; MethodDef, MemberRef and AssemblyRef list every row by RID, and Constant is this file's own builder, one row short. |
| MetadataTables.DataSourceSpec | MetadataTables.cs:13-40 | Four distinct names, each within the list's width, each opening a table. |
| MetadataTables.ConstantListingAsWritten | MetadataTables.cs:205-226 | The Constant view as written keeps its schema and origin and lists RIDs 1 to count − 1 (none for an empty table). |
| MetadataTables.GetConstantTableAsWritten | MetadataTables.cs:205-226 | The `row < count` loop builds exactly the as-written listing. |
| MetadataTables.ConstantAsWrittenDropsLast | MetadataTables.cs:214 | As written, the last constant is never listed, for every non-empty table; the corrected listing has it. |
| MetadataTables.ConstantAsWrittenExample | MetadataTables.cs:214 | A module with one constant shows an empty table as written. |
| TextOutput.StringBuilder.Append | StringBuilderTextOutput.cs:30 | Appending keeps the old text as a prefix. |
| TextOutput.OpCodeText | StringBuilderTextOutput.cs:86-95 | The whole name, or with `omitSuffix` the prefix through the last '.'; nothing when no dot follows the first character. |
| TextOutput.RepeatSpec | StringBuilderTextOutput.cs:58-66 | The indentation is `indent` copies of the string; none for a zero or negative level. |
| TextOutput.Step | StringBuilderTextOutput.cs:48-123 | One call's effect on the output: Indent and Unindent move the level, writes add the pending indentation then their text, `WriteLine` adds a line feed and sets the flag (`AppendOnly`, `IndentLevels`, `StepUnindented`, `IndentOncePerLine`). |
| TextOutput.AppendOnly | StringBuilderTextOutput.cs:48-123 | Whatever the calls, the old text stays a prefix and the indentation string is kept. |
| TextOutput.IndentLevels | StringBuilderTextOutput.cs:48-56 | Indent and Unindent move the level by one, without bound, write nothing, and undo each other. |
| TextOutput.NoIndentBeforeLine | StringBuilderTextOutput.cs:58-78 | Until a line break, nothing is indented: the output gains just the texts written. |
| TextOutput.StepUnindented | StringBuilderTextOutput.cs:58-78 | A call with no indentation pending appends its text alone. |
| TextOutput.FreshOutput | StringBuilderTextOutput.cs:36-41 | A fresh output holds, until its first line break, what the builder held and what was written. |
| TextOutput.IndentOncePerLine | StringBuilderTextOutput.cs:58-84 | A line break writes "\n"; the next write gets the level's indentation once, and the write after it none. |
| TextOutput.StringBuilderTextOutput.constructor | StringBuilderTextOutput.cs:34-41 | Level 0, nothing pending, a tab as indentation string, over the given builder. |
| TextOutput.StringBuilderTextOutput.ToString | StringBuilderTextOutput.cs:43-46 | The builder's text. |
| TextOutput.StringBuilderTextOutput.Indent | StringBuilderTextOutput.cs:48-51 | One level deeper. |
| TextOutput.StringBuilderTextOutput.Unindent | StringBuilderTextOutput.cs:53-56 | One level shallower. |
| TextOutput.StringBuilderTextOutput.AppendIndentation | StringBuilderTextOutput.cs:58-66 | Appends the pending indentation and clears the flag. |
| TextOutput.StringBuilderTextOutput.WriteChar | StringBuilderTextOutput.cs:68-72 | A write of one character. |
| TextOutput.StringBuilderTextOutput.Write | StringBuilderTextOutput.cs:74-78 | A write of a string. |
| TextOutput.StringBuilderTextOutput.WriteLine | StringBuilderTextOutput.cs:80-84 | Appends a line feed and sets the pending flag. |
| TextOutput.StringBuilderTextOutput.WriteOpCode | StringBuilderTextOutput.cs:86-95 | Writes the opcode's text, or nothing when the suffix cannot be cut. |
| TextOutput.StringBuilderTextOutput.WriteReference | StringBuilderTextOutput.cs:97-115 | The references write their text alone. |
| TextOutput.StringBuilderTextOutput.MarkFold | StringBuilderTextOutput.cs:117-123 | Fold markers leave the output unchanged. |
| SimpleGist.Escaped | Services/SimpleGist.cs:100-122 | The content as `AddFile` stores it: each CR, LF, tab and quote replaced by its escape (`EscapedSpec`, `EscapedIdentity`, `EscapedReadsBack`, `EscapeCollision`). |
| SimpleGist.EscapeEachSnoc | Services/SimpleGist.cs:102-120 | One more character appends its escape. |
| SimpleGist.HasEscaped | Services/SimpleGist.cs:100 | True exactly when some character is a carriage return, line feed, tab or double quote. |
| SimpleGist.EscapedSpec | Services/SimpleGist.cs:100-122 | The stored content is one character longer per escaped character, holds no raw CR, LF or tab, and every quote follows a backslash. |
| SimpleGist.EscapedIdentity | Services/SimpleGist.cs:100 | Content without the four characters is stored as it is. |
| SimpleGist.EscapeContent | Services/SimpleGist.cs:100-122 | The loop builds exactly the escaped content. |
| SimpleGist.UnescapeStep | Services/SimpleGist.cs:102-120 | A JSON reader (RFC 8259 section 7, raw control characters rejected) reads a readably stored character back, then the rest. |
| SimpleGist.EscapedReadsBack | Services/SimpleGist.cs:100-122 | Content without backslashes and without control characters other than CR, LF and tab reads back exactly from the request body. |
| SimpleGist.EscapeCollision | Services/SimpleGist.cs:100-122 | A line feed and backslash-n are stored alike and read back as a line feed; a lone backslash cannot be read back; a backspace is stored raw, which no JSON string may hold. |
| SimpleGist.JsonUnescapeStep | Services/SimpleGist.cs:102-120 | With the corrected escape, every character reads back, including `\u` escapes of control characters. |
| SimpleGist.JsonEscapedRoundTrip | Services/SimpleGist.cs:100-122 | With backslashes and all control characters escaped, every content is a valid JSON string body that reads back exactly, and content the code already handles is stored as before. |
| SimpleGist.GistRequest.constructor | Services/SimpleGist.cs:93-96 | No description, not public, no files. |
| SimpleGist.GistRequest.AddFile | Services/SimpleGist.cs:98-124 | Adds the escaped content under a new name; a name already present throws (`false`) and changes nothing. |
| SimpleGist.StoredUnbroken | Services/SimpleGist.cs:100-122 | Stored content holds no line feed. |
| SimpleGist.FileLines | Services/SimpleGist.cs:73-77 | Three lines per file. |
| SimpleGist.FileLinesAt | Services/SimpleGist.cs:73-77 | File k's three lines sit at 3k. |
| SimpleGist.BodyLinesSpec | Services/SimpleGist.cs:68-79 | 6 + 3·files lines; the public flag is `true` exactly for a public request; file k's name is on line 4 + 3k and its content on the next. |
| SimpleGist.BodySplit | Services/SimpleGist.cs:68-79 | Read back line by line, a body without line breaks in its texts gives exactly its lines. |
| SimpleGist.FileLinesUnbroken | Services/SimpleGist.cs:73-77 | The file lines hold no line break when names and contents hold none. |
| SimpleGist.RequestBody | Services/SimpleGist.cs:68-79 | The builder holds exactly the body lines. |
| SimpleGist.FileLinesSnoc | Services/SimpleGist.cs:73-77 | One more file appends its entry. |
| SimpleGist.AppendClose | Services/SimpleGist.cs:78-79 | Appends the two closing braces. |
| SimpleGist.AppendHead | Services/SimpleGist.cs:69-72 | Appends the opening lines. |
| SimpleGist.AppendEntry | Services/SimpleGist.cs:74-76 | Appends one file's entry. |
| SimpleGist.QuotedAfter | Services/SimpleGist.cs:139-142 | The text read holds no double quote. |
| SimpleGist.ResponseUrl | Services/SimpleGist.cs:139-142 | The URL read holds no double quote. |
| SimpleGist.QuotedAt | Services/SimpleGist.cs:139-142 | Where the key and the two quotes sit decides the text read. |
| SimpleGist.QuotedAfterSpec | Services/SimpleGist.cs:139-142 | After the first key, a separator without quotes and a quoted text, that text is read. |
| SimpleGist.ResponseUrlSpec | Services/SimpleGist.cs:139-142 | A response with `"html_url"`, a separator and a quoted URL gives that URL. |
| SimpleGist.NewResponse | Services/SimpleGist.cs:133-153 | Keeps the status; Created gives the response's URL (None where reading it throws); any other status gives a wiki URL. |
| SimpleGist.StatusAnchors | Services/SimpleGist.cs:144-151 | Bad Request, Unauthorized and Unprocessable Entity get their own anchor; every other failure gets "Errors". |
| Sorting.SortBy | TreeNodes.cs:129 | `OrderBy`: a permutation of the input, sorted by key. |
| Sorting.SortBySameElements | TreeNodes.cs:172 | Sorting keeps exactly the same elements. |
| Sorting.InsertWithKey | TreeNodes.cs:194 | Inserting puts the element ahead of every element with its key and leaves the order of the others alone. |
| Sorting.SortByStable | TreeNodes.cs:194 | `OrderBy` is stable: for every key, the elements with that key keep their input order. |
| Sorting.SortByDistinct | TreeNodes.cs:77 | Sorting a list without repetitions gives one without repetitions. |
| Sorting.NoneStaysNone | TreeNodes.cs:43-45 | Once adding to a sorted list throws, adding more still throws. |
| Sorting.SortedAddAllSpec | TreeNodes.cs:42-48 | Filling a `SortedList` succeeds exactly when no two keys repeat, and then holds every element once in key order. |
| Strings.IndexOfChar | Services/SimpleGist.cs:140-141 | The first occurrence at or after `from`, or -1 when there is none. |
| Strings.LastIndexOfChar | StringBuilderTextOutput.cs:89 | The last occurrence, or -1 when there is none. |
| Strings.IndexOfString | Services/SimpleGist.cs:139 | The first ordinal occurrence at or after `from`, or -1 when there is none. |
| Strings.NatDecimal | MetadataTables.cs:44-56 | Decimal digits, at least one. |
| Strings.ParseNatDecimal | MetadataTables.cs:44-56 | The decimal text reads back. |
| Strings.SplitJoin | ExportableTableView.cs:30-32 | Splitting a join undoes it when no part holds the separator. |
| TreeNodes.GroupOrdered | TreeNodes.cs:170-204 | A group with ascending names is in child order. |
| TreeNodes.OrderedAppend | TreeNodes.cs:170-204 | Appending a group of a higher rank keeps the children ordered. |
| TreeNodes.FilterMap | TreeNodes.cs:172-202 | No more nodes than elements. |
| TreeNodes.FilterMapStep | TreeNodes.cs:172-202 | One more element appends its node exactly when it passes the filter. |
| TreeNodes.FilterMapAll | TreeNodes.cs:172-202 | Every node produced has a property shared by the selected elements' nodes. |
| TreeNodes.FilterMapComplete | TreeNodes.cs:172-202 | Every selected element's node is produced. |
| TreeNodes.FilterMapFrom | TreeNodes.cs:172-202 | Every node produced is a selected element's node. |
| TreeNodes.FilterMapSorted | TreeNodes.cs:172-202 | Filtering a sorted sequence into nodes named by the same key keeps them sorted. |
| TreeNodes.TypeParameterTexts | TreeNodes.cs:147-160 | One text per type parameter. |
| TreeNodes.TypeLabel | TreeNodes.cs:143-163 | The loop builds exactly the type label. |
| TreeNodes.GenericLabel | TreeNodes.cs:145-162 | A generic type's label is "[T] Name<" and the parameter list and ">". |
| TreeNodes.TypeLabelNonGeneric | TreeNodes.cs:143-144 | A type without parameters is labelled "[T] Name". |
| TreeNodes.MemberLabel | TreeNodes.cs:222-243 | "[c] Name : Type" for a field, event or property, with `MemberCode`'s letter (`FieldsLabelled`, `EventsLabelled`, `PropertiesLabelled`). |
| TreeNodes.MethodLabel | TreeNodes.cs:294-310 | "[m] " or "[M] " and the method's signature (`MethodNodeText`, `MethodsLabelled`). |
| TreeNodes.ConstructorLabel | TreeNodes.cs:312-336 | "[c] " or "[C] ", the declaring type's name and the parameter types in parentheses (`ConstructorNodeText`, `MethodsLabelled`). |
| TreeNodes.BaseTypeLabel | TreeNodes.cs:210-220 | "[i] " for an interface, "[b] " otherwise, then the type's name (`BasesLabelled`). |
| TreeNodes.EventNodeOf | TreeNodes.cs:255-274 | An event node whose children are its add, remove and invoke accessors, each only when present (`EventsLabelled`, `EventGroupFrom`). |
| TreeNodes.PropertyNodeOf | TreeNodes.cs:276-292 | A property node whose children are its getter then its setter, each only when present (`PropertiesLabelled`, `PropertyGroupFrom`). |
| TreeNodes.MemberCode | TreeNodes.cs:245-315 | The instance code is a lowercase letter and the static code the same letter in upper case. |
| TreeNodes.MethodNodeText | TreeNodes.cs:299-309 | The method node's label. |
| TreeNodes.ConstructorNodeText | TreeNodes.cs:317-335 | The constructor node's label, with the trailing comma dropped. |
| TreeNodes.TypeNodeOf | TreeNodes.cs:141-168 | A type node tagged with its type. |
| TreeNodes.NestedNodes | TreeNodes.cs:182-184 | One type node per nested type, tagged with it. |
| TreeNodes.TypesNamed | TreeNodes.cs:182-184 | A type's node is named by the type. |
| TreeNodes.TypeNodeNamed | TreeNodes.cs:143-144 | A type node is named by its type's name. |
| TreeNodes.BasesLabelled | TreeNodes.cs:172-181 | Base nodes are named by their base type and are base-type nodes. |
| TreeNodes.FieldsLabelled | TreeNodes.cs:185-187 | Field nodes are named by their field and are field nodes. |
| TreeNodes.EventsLabelled | TreeNodes.cs:188-190 | Event nodes are named by their event and are event nodes. |
| TreeNodes.PropertiesLabelled | TreeNodes.cs:191-193 | Property nodes are named by their property and are property nodes. |
| TreeNodes.MethodsLabelled | TreeNodes.cs:194-202 | Method nodes are named by their method and are method or constructor nodes. |
| TreeNodes.SortedFilterMap | TreeNodes.cs:172-202 | Sorting by the node's name and filtering gives nodes in name order. |
| TreeNodes.SortedGroup | TreeNodes.cs:172-202 | And when their kinds share a rank, the nodes form a group. |
| TreeNodes.SortedGroupFrom | TreeNodes.cs:172-202 | Every sorted, filtered node is a selected element's node. |
| TreeNodes.SortedGroupComplete | TreeNodes.cs:172-202 | Every selected element's node is among them. |
| TreeNodes.BaseGroupOrdered | TreeNodes.cs:172-181 | The base nodes are in name order. |
| TreeNodes.BaseGroupFrom | TreeNodes.cs:172-181 | Only bases with a definition, and for an interface only interfaces, are listed. |
| TreeNodes.BaseNodesFrom | TreeNodes.cs:172-181 | Each listed base node comes from a listed base type. |
| TreeNodes.BaseGroupComplete | TreeNodes.cs:172-181 | Every listed base type has its node. |
| TreeNodes.NestedGroupFacts | TreeNodes.cs:182-184 | One node per nested type, in name order. |
| TreeNodes.TypeNodesGroup | TreeNodes.cs:182-184 | Type nodes over types in name order form the nested group. |
| TreeNodes.FieldGroupOrdered | TreeNodes.cs:185-187 | Field nodes in name order. |
| TreeNodes.FieldGroupFrom | TreeNodes.cs:185-187 | Each field node comes from one of the type's fields. |
| TreeNodes.FieldNodesFrom | TreeNodes.cs:185-187 | Each field node comes from a listed field. |
| TreeNodes.FieldGroupComplete | TreeNodes.cs:185-187 | A node for every field. |
| TreeNodes.EventGroupOrdered | TreeNodes.cs:188-190 | Event nodes in name order. |
| TreeNodes.EventGroupFrom | TreeNodes.cs:188-190 | Each event node comes from one of the type's events. |
| TreeNodes.EventNodesFrom | TreeNodes.cs:188-190 | Each event node comes from a listed event. |
| TreeNodes.EventGroupComplete | TreeNodes.cs:188-190 | A node for every event. |
| TreeNodes.PropertyGroupOrdered | TreeNodes.cs:191-193 | Property nodes in name order. |
| TreeNodes.PropertyGroupFrom | TreeNodes.cs:191-193 | Each property node comes from one of the type's properties. |
| TreeNodes.PropertyNodesFrom | TreeNodes.cs:191-193 | Each property node comes from a listed property. |
| TreeNodes.PropertyGroupComplete | TreeNodes.cs:191-193 | A node for every property. |
| TreeNodes.MethodGroupOrdered | TreeNodes.cs:194-202 | Method and constructor nodes in name order. |
| TreeNodes.MethodGroupFrom | TreeNodes.cs:194-202 | Only methods with a non-nil token get a node, a constructor node exactly for a constructor. |
| TreeNodes.MethodNodesFrom | TreeNodes.cs:194-202 | Each method node comes from a listed method with a token. |
| TreeNodes.MethodGroupComplete | TreeNodes.cs:194-202 | A node for every method with a non-nil token. |
| TreeNodes.SixGroupsOrdered | TreeNodes.cs:170-204 | Six groups of ranks 0 to 5 in a row are in child order. |
| TreeNodes.TypeChildren | TreeNodes.cs:170-204 | A type's children: bases, nested types, fields, events, properties and methods, each group in name order (`TypeChildrenOrdered`, `SixGroupsOrdered` and the group lemmas). |
| TreeNodes.TypeChildrenOrdered | TreeNodes.cs:170-204 | A type's children are bases, nested types, fields, events, properties, methods, each in name order. |
| TreeNodes.AppendFiltered | TreeNodes.cs:172-202 | Appends, in order, the nodes of the elements that pass the filter. |
| TreeNodes.AppendBases | TreeNodes.cs:172-181 | Appends the base group. |
| TreeNodes.AppendFields | TreeNodes.cs:185-187 | Appends the field group. |
| TreeNodes.AppendEvents | TreeNodes.cs:188-190 | Appends the event group. |
| TreeNodes.AppendProperties | TreeNodes.cs:191-193 | Appends the property group. |
| TreeNodes.AppendNested | TreeNodes.cs:182-184 | Appends the nested group. |
| TreeNodes.AppendTypeNodes | TreeNodes.cs:182-184 | Appends each nested type's node, built recursively. |
| TreeNodes.NestedNodesStep | TreeNodes.cs:182-184 | One more nested type appends its node. |
| TreeNodes.AppendMethods | TreeNodes.cs:194-202 | Appends the method group. |
| TreeNodes.AppendMethodNodes | TreeNodes.cs:194-202 | Appends a constructor or method node per method with a token. |
| TreeNodes.BuildTypeNode | TreeNodes.cs:141-205 | The type node constructor builds exactly `TypeNodeOf`. |
| AssemblyNodes.AssemblyNodeOf | TreeNodes.cs:28-84 | The assembly node, None when a sorted-list add throws on a duplicate name (`AssemblyNodeSucceeds`, `AssemblyNodeOrdered`, `AssemblyNodeComplete`). |
| AssemblyNodes.NamespaceNodeOf | TreeNodes.cs:118-137 | A namespace node with the assembly's own top-level types of that namespace, in name order (`NamespaceNodeSorted`, `NamespaceNodeComplete`, `NamespaceNodeOnly`). |
| AssemblyNodes.NodesOf | TreeNodes.cs:78-80 | One node per element, in order. |
| AssemblyNodes.NamespacesOfSpec | TreeNodes.cs:69-76 | The namespace list holds each namespace of the module's own top-level types exactly once. |
| AssemblyNodes.NamespaceListSpec | TreeNodes.cs:69-77 | Sorted, distinct, and naming exactly the own types' namespaces. |
| AssemblyNodes.NamespaceListSorted | TreeNodes.cs:77 | The sorted list is sorted and distinct. |
| AssemblyNodes.NamedNodesGroup | TreeNodes.cs:78-80 | Nodes of one class named after a sorted, distinct list form a group with distinct names. |
| AssemblyNodes.NamespaceNodeShape | TreeNodes.cs:120-126 | A namespace node is tagged with, so named by, its namespace. |
| AssemblyNodes.NamespaceNodesOrdered | TreeNodes.cs:69-80 | The namespace nodes ascend with distinct names. |
| AssemblyNodes.NamespaceNodesAt | TreeNodes.cs:78-80 | The i-th namespace node is the i-th namespace's node. |
| AssemblyNodes.NamedNodesMembers | TreeNodes.cs:78-80 | A namespace has a node exactly when it is in the list. |
| AssemblyNodes.NamespaceNodesExact | TreeNodes.cs:69-80 | A namespace has a node exactly when some own top-level type is in it. |
| AssemblyNodes.NamespaceNodeLabel | TreeNodes.cs:123-126 | The empty namespace is labelled "[N] -", any other "[N] " and its name. |
| AssemblyNodes.NamespaceTagText | TreeNodes.cs:123-126 | The label of a node tagged with a namespace. |
| AssemblyNodes.NamespaceNodeSorted | TreeNodes.cs:129 | A namespace node's types come in name order. |
| AssemblyNodes.NamespaceNodeComplete | TreeNodes.cs:128-135 | Every own top-level type of the namespace has its node. |
| AssemblyNodes.NamespaceNodeOnly | TreeNodes.cs:128-135 | Only the module's own types of that namespace have nodes. |
| AssemblyNodes.SortedFilterMapAll | TreeNodes.cs:129-134 | Every sorted, filtered node has a property shared by the selected elements' nodes. |
| AssemblyNodes.DistinctNodeNames | TreeNodes.cs:42-66 | Nodes have distinct names exactly when their elements have distinct keys. |
| AssemblyNodes.SortedListGroup | TreeNodes.cs:42-66 | A filled sorted list of one node class is a group holding every node once. |
| AssemblyNodes.FillSucceeds | TreeNodes.cs:42-66 | Filling a sorted list succeeds exactly when the names are distinct. |
| AssemblyNodes.AssemblyNodeSucceeds | TreeNodes.cs:29-84 | Building the assembly node fails exactly when two references, two module references or two resources share a name. |
| AssemblyNodes.ReferencesFill | TreeNodes.cs:43-45 | Adding the references succeeds exactly when their names are distinct. |
| AssemblyNodes.ModuleReferencesFill | TreeNodes.cs:51-55 | Adding the module references succeeds exactly when their names are distinct. |
| AssemblyNodes.ResourcesFill | TreeNodes.cs:61-63 | Adding the resources succeeds exactly when their names are distinct. |
| AssemblyNodes.AssemblyNodeTagged | TreeNodes.cs:29-31 | The node for a file is an assembly node tagged with that file. |
| AssemblyNodes.AssemblyNodeOrdered | TreeNodes.cs:29-84 | Tagged with its file, labelled "[A] name (version)", children in group order with the four groups' sizes, each reference and resource once. |
| AssemblyNodes.AssemblyNodeComplete | TreeNodes.cs:43-66 | Every reference, module reference and resource has its node among the children. |
| AssemblyNodes.FillSortedList | TreeNodes.cs:42-48 | The loop adds the nodes one by one, failing at the first repeated name. |
| AssemblyNodes.CollectNamespaces | TreeNodes.cs:69-76 | The loop collects the distinct namespaces in order of first appearance. |
| AssemblyNodes.BuildNamespaceNode | TreeNodes.cs:120-136 | The namespace node constructor builds exactly `NamespaceNodeOf`. |
| AssemblyNodes.AppendIfInNamespace | TreeNodes.cs:130-133 | One type is appended exactly when it is the module's and in the namespace. |
| AssemblyNodes.BuildAssemblyNode | TreeNodes.cs:29-84 | The assembly node constructor builds exactly `AssemblyNodeOf`. |
| AssemblyNodes.BuildNamespaceNodes | TreeNodes.cs:69-81 | Collects, sorts and builds one node per namespace. |
| TreeViewHelpers.FindIn | TreeViewHelpers.cs:39-54 | A found path is non-empty. |
| TreeViewHelpers.NodeAtShift | TreeViewHelpers.cs:41 | A path into the later siblings is the shifted path into the forest. |
| TreeViewHelpers.NodeAtFirst | TreeViewHelpers.cs:46-47 | A path into the first node's subtree. |
| TreeViewHelpers.FindSound | TreeViewHelpers.cs:39-54 | A found path leads to a node satisfying the predicate. |
| TreeViewHelpers.FindComplete | TreeViewHelpers.cs:39-54 | If some node satisfies the predicate, one is found. |
| TreeViewHelpers.FindNone | TreeViewHelpers.cs:23-54 | `Find` returns null exactly when no node satisfies the predicate. |
| TreeViewHelpers.FindFirst | TreeViewHelpers.cs:39-54 | No node before the found one in pre-order satisfies the predicate. |
| TreeViewHelpers.FindFirstInFirst | TreeViewHelpers.cs:45-49 | The case of a match below the first node. |
| TreeViewHelpers.TailPreorder | TreeViewHelpers.cs:45-49 | Dropping a shared first index keeps pre-order. |
| TreeViewHelpers.FindFirstInRest | TreeViewHelpers.cs:41-53 | The case of a match in a later sibling's subtree. |
| TreeViewHelpers.FirstSubtreeMiss | TreeViewHelpers.cs:42-49 | With no match at or below the first node, no path into that subtree matches. |
| TreeViewHelpers.NothingBeforeFirst | TreeViewHelpers.cs:41-43 | Nothing precedes the first root in pre-order. |
| TreeViewHelpers.PreorderHead | TreeViewHelpers.cs:41 | An earlier path starts at a root no later. |
| TreeViewHelpers.ShiftPreorder | TreeViewHelpers.cs:41 | Lowering both first indices keeps pre-order. |
| TreeViewHelpers.NodeAtAppend | TreeViewHelpers.cs:28-31 | The node at a parent's path extended into its children. |
| TreeViewHelpers.FindBelow | TreeViewHelpers.cs:28-31 | `Find (node, predicate)`: the search over the node's children, as a path below the node (`FindBelowSound`). |
| TreeViewHelpers.FindBelowSound | TreeViewHelpers.cs:28-31 | A node found below a node is a descendant satisfying the predicate. |
| TreeViewHelpers.Parent | TreeViewHelpers.cs:74-78 | The parent's path is the path without its last index. |
| TreeViewHelpers.Ancestors | TreeViewHelpers.cs:73-78 | The ancestors are the proper non-empty prefixes, root first. |
| TreeViewHelpers.AncestorsInForest | TreeViewHelpers.cs:74-78 | Every ancestor of a node in the forest is in the forest. |
| TreeViewHelpers.AppendFileRoot | TreeViewHelpers.cs:18-19 | An assembly node for a new file keeps the roots' files distinct. |
| TreeViewHelpers.ParentStack | TreeViewHelpers.cs:73-78 | The stack holds the ancestors, parent at the bottom, root on top. |
| TreeViewHelpers.TreeView.constructor | TreeViewHelpers.cs:9-21 | No roots, nothing expanded, nothing selected. |
| TreeViewHelpers.TreeView.Find | TreeViewHelpers.cs:23-26 | `Find (predicate)` over the roots: the first matching node in pre-order, null exactly when none matches (`FindSound`, `FindComplete`, `FindNone`, `FindFirst`). |
| TreeViewHelpers.TreeView.FindFile | TreeViewHelpers.cs:56-65 | The first root showing a file of the same name, or none exactly when no root does. |
| TreeViewHelpers.TreeView.Add | TreeViewHelpers.cs:9-21 | Returns the root already showing the file, or appends the new assembly node as the last root; the roots stay one per file. |
| TreeViewHelpers.TreeView.ExpandAncestors | TreeViewHelpers.cs:79-80 | Expands the ancestors outermost first. |
| TreeViewHelpers.TreeView.Select | TreeViewHelpers.cs:67-86 | Null gives null and changes nothing; otherwise the ancestors are expanded outermost first and the node selected. |

## Left out

- Reading files, parsing PE images, the `ILSpy` type system and the terminal UI are not
  modelled. Modules, types, members, method bodies and resolution are values and functions
  passed in. The file system is a map from path to a parsed module.
- AssemblyResolver.ResolveModule and `ResolveModuleAsync` throw "not implemented"; they are
  left out.
- Debugger.Break in `Load`'s catch is a no-op for the model. The exception is the `None`
  result.
- The operand-size table follows ECMA-335 Partition III, because `ILParser.SkipOperand` is
  not part of this model.
- The resolver of the main module (`ResolveEntity`) is a function parameter.
  `MetadataTokenHelpers.EntityHandleOrNil` is modelled as "row 0 is nil".
- ExportableTableView.ProcessKey, `ExportTable` and `GistTable` are left out. They open
  dialogs, write files and call the gist service (HTTP and OAuth).
- PInvokeFinder.ActivationHandle: a row whose second cell is missing or not an `int` gives None,
  where the source's `(int) table.Rows [args.Row] [1]` cast throws; no table `FinderTable` or
  `ReferenceTable` builds has such a row.
- ColumnStyles.IntHex8 is not attached to a column in the model. The analyzers register it on
  their Token column, and it affects only the terminal's drawing: the Markdown export writes
  `row [i]`, an int in decimal.
- DashSupport.Open is not modelled. Ctrl+D is modelled up to the search symbol it passes
  (`DashSymbol`).
- The writer's `Flush` is a no-op.
- TableViews.Writer.WriteLine: the line terminator is modelled as "\n"; `Environment.NewLine`
  is platform-specific.
- `MetadataDataSource`'s `Render` and `SetMark` draw in the terminal and are left out. So is
  `ActivateAssemblyRefTable`, which opens a view.
- `GetString` on a nil handle, and the metadata reader's string heap, are values in the model.
- MetadataTable.EnumTextSpec: enum underlying types are modelled by width only. Sign
  extension of negative values of signed enums is not distinguished from the unsigned
  pattern.
- MetadataTable.TypeRefListing: a resolution scope whose row does not exist gives `None` (the
  lookup throws). The partially filled table the exception leaves behind is not modelled.
- MetadataTable.TypeRefListing: a resolution scope with neither the AssemblyRef bits nor the
  TypeRef bit calls `Debugger.Break` (MetadataTables/MetadataTable.cs:104-107). The model takes
  that break as a no-op, as it does the one in `Load`'s catch: the cell keeps "0x" and the
  token, and the row is listed (`ScopeText`).
- MetadataTable.ConstantListing and the other table builders require every table to have
  fewer than 2^24 rows (`Fits`), the most a token's row field can hold.
- SimpleGist.Unescape reads `\u` escapes with lowercase hex digits only, and does not combine
  surrogate pairs: a `\u` escape naming a surrogate reads as invalid.
- ILReader.DecodeFirst: a `switch` whose skip is negative ends the model's reading, and the
  body is marked incomplete. The source's reader instead moves its cursor back by that many
  bytes when the result stays inside the body, and throws only below 0. `StepAsWritten`
  models that cursor and Findings records the endless loop it can cause.
- Resolver.AssemblyResolver: the name cache is a static dictionary in the source, shared by
  every resolver instance. The model keeps it as a field of the one resolver, which is all the
  source creates (the `Resolver` singleton).
- TreeNodes.TypeNodeOf: the `InvalidOperationException` thrown when resolving the type's own
  handle does not give a type definition is not modelled. The node is tagged with the type
  passed in, taking that resolution to give the same definition back.
- `MetadataDataSource.IsMarked` always returns false and `SetMark` does nothing, so no entry
  of the table list is ever marked; both belong to drawing and are left out.
- TextOutput.StringBuilderTextOutput.constructor: the null check on the builder is not
  modelled, since Dafny references are non-null.
- The `IndentationString` setter is not modelled; the field keeps its default tab.
- TextOutput.StringBuilderTextOutput.Indent: the level is an unbounded `int`, where the source's
  `indent` is a 32-bit `int` that wraps after 2^31 - 1 nested `Indent` calls (and `Unindent` below
  -2^31); `IndentLevels` holds without that bound.
- TextOutput.StringBuilderTextOutput.WriteLine: appends "\n" for `AppendLine`; `Environment.NewLine` is platform-specific.
- SimpleGist.RequestBody: each `AppendLine` of the request body ends its line with "\n"
  (`Lines`, `BodyLines`). The source writes `Environment.NewLine`, which is "\r\n" on Windows.
- Dictionary enumeration order is taken to be insertion order. The gist's files are a
  sequence of pairs.
- Culture-sensitive string comparison in `OrderBy`, `SortedList` and `List.Sort` is modelled
  as ordinal order.
- TreeViewHelpers.TreeView.Add compares roots by file name only. The reference-equality
  test on the tag implies the same file name.

## Findings

| source | as written | input that shows it | evidently intended | confidence | as-written member | corrected member |
|---|---|---|---|---|---|---|
| MetadataTables.cs:214 | The Constant table's loop runs `row < count` over RIDs that start at 1 | A module with one constant: the view shows an empty table | `row <= count`, as in MetadataTables/MetadataTable.cs:185, listing every constant | high, not executed | MetadataTables.ConstantAsWrittenDropsLast | MetadataTable.ConstantListing |
| Services/SimpleGist.cs:100-121 | `AddFile` escapes CR, LF, tab and the double quote, but not the backslash nor the other control characters | Content `\n` (backslash, n) is stored as `\n` and read back by a JSON parser as a line feed; a lone backslash, or a backspace (U+0008), makes the body invalid JSON | Escape the backslash and every control character (RFC 8259 section 7), so every content reads back exactly | high, not executed | SimpleGist.EscapeCollision | SimpleGist.JsonEscapedRoundTrip |
| Analyzers/MethodUses.cs:67-99 | The scan loop relies on the reader moving forward, but a `switch` count whose skip is negative as a signed 32-bit value moves the cursor back | The body `00 00 00 45 FE FF FF FF`: after the count the cursor is at 8 and the skip of −8 takes it back to 0, forever | Treat a negative skip as malformed and stop, so every read moves forward and the scan ends | high, not executed | ILReader.SwitchRewindsForever | ILReader.StepAsWrittenAgrees |
| AssemblyResolver.cs:43-49 | Both `foreach` loops return on their first iteration, so a miss probes only the first directory with ".dll" | Directories `a` and `b`, the module only at `b/Lib.dll`: `Resolve` returns null | Probe every directory with each extension and return the first that loads | high, not executed | Resolver.ResolveMissesSecondDirectory | Resolver.ResolveIntendedSpec |
