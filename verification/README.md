# Croft WIT toolchain: a Dafny model

This project models four parts of the Croft repository and proves what each of them promises.

* **The Thatch wire codec** that `tools/wit_codegen.c` generates from a WIT schema: the type-directed
  writer, reader, blob validator and universal skip routine, over the region primitives of
  `src/runtime/thatch_core.c`. The generated statements are modelled as interpreters over the schema type:
  `Wire` holds the format and the reader as functions, `Codec` and `ReaderCodec` the statements that
  append to a region and fill a struct member by member, and `Layout` the members themselves.
* **The middle end of the same compiler**: scanner, declaration and type parsers up to whole scopes, type
  printer, use-binding fixpoint, traversal of the world include graph, world index tables, lowering of
  functions to command and reply variants with its rounds of name disambiguation and the lookup of what it
  adds, and dependency ordering.
* **The textpad** of `examples/wit_textpad_window.c`: UTF-8 indexing, word motion and the edit state.
* **The XPI requirement solver** `tools/solve_xpi_requirements.py`.

Code that changes things step by step is a method or a class, proved against a function of the old state;
the theorems are then stated about that function. Bit masks and shifts are written as division and
remainder. A 32-bit wrap is written out where the code's answer depends on it (the byte length of a list,
the truncation of an over-long length).

What the proofs found about the code as it stands:

* A `result` whose taken arm is omitted is written as a bare tag, but skip goes on and demands a payload.
  Skip therefore stops where the reader stops for exactly those types whose option/result spine omits no
  arm (`SkipTheorems.SkipAgreesExactly`), and a list of such values is refused by its own writer
  exactly when it holds a bare one (`SkipTheorems.ElementsAccepted`).
* An option directly inside an option declares its presence flag twice
  (`LayoutTheorems.NestedOptionDeclaresTwice`), and no struct could hold "present, but empty". Beyond
  collisions between the members of different fields or cases this is the only way a struct declares a
  member twice (`LayoutDistinct.DeclaredOnce`). A text `a` beside a field `a_len` is such a collision
  (`LayoutDistinct.LengthFieldDeclaresTwice`). The round trips through a struct rest on that condition.
* A command's payload names its request record by the bare local name, and the emitter looks that name up
  again. When two interfaces declare a record of that name, the lookup that keeps request names apart does
  not see them, and the payload leads nowhere; when the name is a builtin type, the payload is emitted as
  that type. Otherwise every payload leads to its own record (`Lowering.PayloadsLeadExactly`,
  `LoweringInputs.SharedNameLeadsNowhere`, `LoweringInputs.BuiltinNameLeadsElsewhere`); by the input alone
  this is so when no name a request may get is of these kinds (`LoweringRequests.PlainNamesLead`). The
  dependency graph does not know the edge from a command to a scoped request record
  (`LoweringOrder.CommandEdgeExactly`), and yet the record is emitted first
  (`LoweringOrder.RequestsBeforeCommands`).
* A function in an interface that starts and then goes wrong is no error: the parser reports it, goes on from
  the place where it went wrong, and nothing is declared for that function
  (`ScopeRender.BrokenFunctionIsDropped`). Files that are written out correctly are read back whole
  (`ScopeRender.FileReads`).
* A printed type does not always parse back: a bare `result` prints as `result<>`, and a parameter named
  with a leading underscore, which the parser takes from `%_x`, is read as an omitted one. Apart from
  these two everything survives (`TypeText.ReparseExactly`; the inputs are `TypeText.BareResultIsLost` and
  `TypeText.EscapeIsLost`).
* A replacement in the textpad is a deletion and an insertion; when only the insertion is refused, the
  selected text is lost (`TextpadTheorems.FailuresKeepTextUnlessTorn`,
  `TextpadTheorems.BadPasteLosesSelection`). A number above the code point range is
  not always refused: it is stored as its value modulo 2 to the 22nd whenever that is a supplementary
  code point (`Utf8.StoredIsDecoded`, `TextpadTheorems.TypingStoresAnother`).
* The solver's final selection can contain conflicting bundles, because the requirements a pick drags in
  are never looked at (`XpiSolver.RequirementOfPickMayConflict`). `XpiSolver.PeacefulInputIsHarmonious`
  gives a condition on the input that rules this out, and `XpiSolver.ForcedHarmonyExactly` shows that it is
  also necessary when every open slot has one candidate.

## Model

| member | source | states |
|---|---|---|
| Regions.Region.WriteTag | src/runtime/thatch_core.c:4-15 | appends one byte, or fails for lack of room and leaves the region as it was |
| Regions.Region.WriteData | src/runtime/thatch_core.c:17-30 | appends the bytes whole or not at all |
| Regions.Region.ReserveSkip | src/runtime/thatch_core.c:32-42 | leaves four bytes open behind unchanged contents |
| Regions.Region.CommitSkip | src/runtime/thatch_core.c:44-55 | patches only the reserved bytes, with the number of bytes behind them; refuses a place that was not reserved |
| Bytes.LE32RoundTrip | src/runtime/thatch_core.c:44-55 | the four little-endian bytes of a 32-bit length give the length back |
| Bytes.FromLE32RoundTrip | src/runtime/thatch_core.c:87-100 | every four bytes are the encoding of the length read from them |
| Codec.SkipValue | src/runtime/wit_skip.c:5-80 | the skip routine computes the universal skip function, with its errors, on every image and cursor |
| Codec.SkipValues | tools/wit_codegen.c:7762-7785 | the element loop reaches the end of `n` skippable values or fails where the first one fails |
| Codec.WriteType | tools/wit_codegen.c:7683-7853 | a writer appends exactly the encoding of what the struct holds, or fails with the error that value calls for, or for lack of room only if it does not fit; earlier bytes stay |
| Codec.WriteList | tools/wit_codegen.c:7762-7785 | a list writer emits count and bytes in one segment exactly when the bytes are that many skippable values |
| Codec.WriteOption | tools/wit_codegen.c:7786-7806 | presence decides between the bare tag and the tag with the encoded value |
| Codec.WriteResult | tools/wit_codegen.c:7829-7849 | the flag picks the arm; an omitted arm leaves the bare tag |
| Codec.WriteGroup | tools/wit_codegen.c:7856-7901 | a record or tuple is one segment with the true length of its members in order |
| Codec.WriteVariant | tools/wit_codegen.c:7903-7951 | a variant is one segment holding the case tag and that case's payload; unknown tags are refused |
| Codec.EncodedShape | tools/wit_codegen.c:6913-6936 | what a struct owes the wire, kind by kind, agrees with encoding the value it holds |
| ReaderCodec.Reader.ReadType | tools/wit_codegen.c:7963-8153 | a reader succeeds exactly where the format does, with its error, leaves the cursor behind the value, touches only its own members, and leaves the struct holding the value read |
| ReaderCodec.Reader.ReadList | tools/wit_codegen.c:8053-8081 | the wrapping byte length, the element loop and the segment end admit exactly the well-formed lists |
| ReaderCodec.Reader.ReadOption | tools/wit_codegen.c:8082-8101 | flag and value after a self-tagged option |
| ReaderCodec.Reader.ReadResult | tools/wit_codegen.c:8128-8149 | flag and arm after a self-tagged result |
| ReaderCodec.Reader.ReadGroup | tools/wit_codegen.c:8156-8207 | members in order, and the segment ends where its length says |
| ReaderCodec.Reader.ReadVariant | tools/wit_codegen.c:8209-8262 | the known case's payload, and the segment ends where its length says |
| ReaderCodec.CopyThroughWire | tools/wit_codegen.c:7683-8262 | for a type with no option directly inside an option and with fields and cases of different members, writing a struct and reading it back gives a struct with the same value, wherever the bytes land |
| ReaderCodec.Rewrite | tools/wit_codegen.c:7683-8262 | under the same condition on the type, reading arbitrary bytes and writing the struct reproduces the bytes consumed, for types without blobs |
| ReaderCodec.ValidateRecord | tools/wit_codegen.c:9303-9322 | the generated validator's verdict on every address and length |
| WireTheorems.Canonical | tools/wit_codegen.c:7963-8262 | whatever a reader accepts is the encoding of what it returns, up to the two interchangeable blob tags |
| WireTheorems.Complete | tools/wit_codegen.c:7963-8262 | a reader accepts every encoding wherever it stands |
| WireTheorems.ReaderInvertsWriter | tools/wit_codegen.c:7683-8262 | a reader returns `v` and `next` if and only if `v` is representable and the bytes up to `next` are its encoding |
| WireTheorems.RoundTrip | tools/wit_codegen.c:7683-8262 | with any bytes before and behind, the value comes back and the cursor is at the end of the encoding |
| WireTheorems.PrefixFree | tools/wit_codegen.c:6913-6936 | no encoding is a prefix of another value's, so encodings are injective |
| WireTheorems.RewriteReproduces | tools/wit_codegen.c:7963-8262 | canonical form: re-encoding what was read gives the bytes read |
| WireTheorems.ListAt | tools/wit_codegen.c:8053-8081 | the wrapping subtraction in the list reader lets nothing else through |
| WireTheorems.ValidatorAcceptsWholeEncodings | tools/wit_codegen.c:9303-9322 | a non-empty blob is valid if and only if it is one whole encoding |
| SkipTheorems.SkipLocal | src/runtime/wit_skip.c:5-80 | skip depends only on the bytes it passes |
| SkipTheorems.SkipOverEncoding | tools/wit_codegen.c:8271-8330 | skip stops at the end of every encoding, except that over a bare value it swallows the next one |
| SkipTheorems.SkipAgreesExactly | tools/wit_codegen.c:8271-8330 | skip stops where the reader stops on all input if and only if the spine of the type omits no result arm |
| SkipTheorems.SkipFailsOnBare | tools/wit_codegen.c:7829-7849 | a bare value alone is read but cannot be skipped |
| SkipTheorems.ListTransparent | tools/wit_codegen.c:7762-7785 | a list writer accepts a count and bytes if and only if the bytes are that many skippable values end to end |
| SkipTheorems.ElementsAccepted | tools/wit_codegen.c:7762-7785 | a list of encoded elements is accepted if and only if none of them is bare |
| SkipTheorems.TwoBareOksRefused | tools/wit_codegen.c:7829-7849 | two adjacent ok values of `result<_, E>` are refused |
| LayoutTheorems.LayoutAgrees | tools/wit_codegen.c:223-390 | the member paths generated code touches are exactly the declared members, in order, through any nesting |
| LayoutTheorems.ResultAgrees | tools/wit_codegen.c:324-390 | the flag and both arms of a result |
| LayoutTheorems.CaseAgrees | tools/wit_codegen.c:6788-6851 | the members of a variant's payload |
| LayoutTheorems.BarePayloadAgrees | tools/wit_codegen.c:6788-6851 | payloads that are declared without a wrapping struct |
| LayoutTheorems.NestedOptionDeclaresTwice | tools/wit_codegen.c:6687-6778 | an option inside an option, through aliases and borrows, declares one flag twice: the failing inputs behind LayoutDistinct.DeclaredOnce |
| LayoutDistinct.DeclaredOnce | tools/wit_codegen.c:6687-6851 | a generated struct declares each member once if and only if no option stands directly inside an option, through aliases and borrows, and within every record and variant no two fields or cases declare the same member |
| LayoutDistinct.PathsOnce | tools/wit_codegen.c:223-390 | the member paths that generated code touches are all different under the same condition, and only then |
| LayoutDistinct.NestedOptionsOnly | tools/wit_codegen.c:6687-6778 | without named records and variants, the nested option is the only way to declare a member twice |
| LayoutDistinct.NamedCasesApart | tools/wit_codegen.c:6788-6851 | cases with different names never share a member, whatever their payloads |
| LayoutDistinct.NamedFieldsApart | tools/wit_codegen.c:6687-6778 | fields declare no member in common, whatever their types, if no marker (`has_`, `is_` or none) makes one name the start of a member of the other |
| LayoutDistinct.LengthFieldDeclaresTwice | tools/wit_codegen.c:6687-6778 | a record with a text field `a` and a number field `a_len` declares `a_len` twice |
| Structs.LoadFrame | tools/wit_codegen.c:7683-7853 | what a struct holds depends only on the members its type touches |
| Structs.NoStructHoldsPresentAbsent | tools/wit_codegen.c:271-322 | with one flag for two levels, present-but-empty cannot be held |
| TopoSort.Sort | tools/wit_codegen.c:6607-6661 | the in-degree loops compute the order that always takes the lowest ready index |
| TopoSort.OrderIsPermutation | tools/wit_codegen.c:6607-6661 | the result is a permutation with every dependency first |
| TopoSort.FailsExactlyOnCycles | tools/wit_codegen.c:6607-6661 | sorting fails if and only if the dependencies have a cycle |
| TopoSort.ClosedPrefixFirst | tools/wit_codegen.c:6607-6661 | a dependency-closed prefix is emitted before everything else |
| UseBindings.Registry.Lookup | tools/wit_codegen.c:5063-5117 | a binding gets a symbol in a pass exactly when a declaration or a resolved binding is at hand, and it is the symbol its chain ends in |
| UseBindings.Registry.Pass | tools/wit_codegen.c:5217-5284 | a pass keeps every symbol, and one without progress proves the rest unreachable |
| UseBindings.Registry.Resolve | tools/wit_codegen.c:5217-5284 | success if and only if every chain ends in a declaration, with that declaration's symbol; the pass bound never matters |
| UseBindings.EndUnique | tools/wit_codegen.c:5063-5117 | a chain ends in one declaration only |
| UseBindings.EndsWithinCount | tools/wit_codegen.c:5217-5284 | a chain that ends uses no binding twice, so as many hops as bindings suffice |
| UseBindings.EndsUnlessDead | tools/wit_codegen.c:5217-5284 | a name fails to resolve if and only if its chain dangles or runs in a circle |
| UseBindings.LinksOrderFree | tools/wit_codegen.c:2106-2155 | the order of the bindings does not matter |
| Worlds.CollectWorldEndpoints | tools/wit_codegen.c:6482-6515 | once per key, exactly the endpoints of the kind asked for in worlds reachable through includes; the depth error cannot occur when included worlds are registered |
| Worlds.Collector.Collect | tools/wit_codegen.c:6394-6480 | a visit covers all that the world's includes lead to without revisiting the path |
| Worlds.CoverAll | tools/wit_codegen.c:6394-6480 | skipping worlds on the current path loses nothing: every walk can be cut to one behind its last visit |
| Worlds.EmitDescriptors | tools/wit_codegen.c:8527-8560 | offsets accumulate over the primary worlds in registry order |
| Worlds.EmitBindings | tools/wit_codegen.c:8561-8595 | the binding table, built by loops of its own |
| Worlds.IndexAgrees | tools/wit_codegen.c:6004-6043 | each descriptor's slice holds exactly its world's items in registry order |
| Worlds.SlicesTile | tools/wit_codegen.c:8527-8595 | the slices lie end to end and fill the table |
| Naming.AssignNames | tools/wit_codegen.c:4525-4631 | the rounds compute the settled names and stop within 2n+1 |
| Naming.NamesDoNotConflict | tools/wit_codegen.c:4487-4523 | on success no two functions conflict and no request name is already declared |
| Naming.NamesOrderFree | tools/wit_codegen.c:4525-4631 | success, and each function's name, do not depend on declaration order |
| Symbols.SplitSymbolName | tools/wit_codegen.c:1321-1367 | the slash loop splits at the last slash before the first double colon |
| Symbols.SplitInvertsBuild | tools/wit_codegen.c:1301-1367 | splitting a symbol gives back what it was built from if and only if the names are recoverable: no slash in the interface, no earlier double colon, no package without an interface |
| Symbols.SymbolsDiffer | tools/wit_codegen.c:1301-1319 | recoverable names have symbols of their own |
| Lookups.FoundAgain | tools/wit_codegen.c:4947-4963 | in the final tables a lookup of an added record's local name finds that record if and only if its symbol is the bare name or no two records declared before share that name |
| Lookups.LeadsToOwnRecord | tools/wit_codegen.c:6788-6851 | a bare payload name is emitted as the added record of that name if and only if the record is usable: the name is no builtin type, and no two records declared before share it or the record's symbol is the bare name |
| Lowering.Registry.LowerFunc | tools/wit_codegen.c:4719-4903 | with planned names neither the request record nor the reply case of any function can be refused |
| Lowering.Registry.LowerGroup | tools/wit_codegen.c:4719-4903 | exactly when a group is lowered, and the records and variants it then adds |
| Lowering.Registry.LowerOperations | tools/wit_codegen.c:4905-4925 | every surface is lowered, in order of first appearance, with two variants that mean its functions; it fails if and only if some surface cannot be lowered in its turn; in the final tables all payloads lead to their own request records if and only if all of these are usable: no request name is a builtin type or, unless it is its record's symbol, shared by two declared records |
| Lowering.Registry.AddReply | tools/wit_codegen.c:4863-4872 | a shared reply name is refused exactly when the shapes differ |
| Lowering.PlanIsGood | tools/wit_codegen.c:4633-4681 | a plan keeps command names apart, shares reply names only between equal shapes and takes no name that a lookup finds |
| Lowering.RequestsLeaveFree | tools/wit_codegen.c:4683-4699 | adding a group's own request records takes no planned name away |
| Lowering.CommandPreserves | tools/wit_codegen.c:4719-4903 | command cases are the group's functions in order; the payload of a function with a receiver or parameters names its request record, which holds them in order, and the lookup in the final tables leads there if and only if that record is usable |
| Lowering.PayloadsLeadExactly | tools/wit_codegen.c:4719-4925 | all payloads of a lowered group lead to their own request records if and only if every one of these records is usable |
| LoweringRequests.PlainNamesLead | tools/wit_codegen.c:4244-4278 | a condition on the input alone: if no name that a function's request may get, at any of the three levels, is a builtin type or shared by two declared records, all payloads lead to their own request records |
| LoweringInputs.SharedNameLeadsNowhere | tools/wit_codegen.c:6788-6851 | two interfaces declare a record `open` and a third a function `open`: the group is lowered, and its payload then leads to no type |
| LoweringInputs.BuiltinNameLeadsElsewhere | tools/wit_codegen.c:4513-4523 | a function `string` with a parameter is lowered, and its payload is emitted as the builtin string |
| Lowering.ReplyPreserves | tools/wit_codegen.c:4719-4903 | each function has one reply case, of its result's shape, and there are no others |
| Lowering.EveryFunctionInOneGroup | tools/wit_codegen.c:4905-4925 | grouping loses no function and repeats none |
| LoweringOrder.FrontIsClosed | tools/wit_codegen.c:6574-6605 | after lowering, all records and the original variants depend only on each other |
| LoweringOrder.RequestsBeforeCommands | tools/wit_codegen.c:6607-6661 | so when sorting succeeds, every record, request records among them, is emitted before every command and reply variant |
| LoweringOrder.CommandEdgeExactly | tools/wit_codegen.c:6574-6605 | in the final tables, the graph has the edge from a lowered variant to the request record its case names if and only if that record's symbol is the bare name |
| LoweringOrder.ScopedRequestHasNoEdge | tools/wit_codegen.c:6574-6605 | every function that needs a request has its case and its record, and the edge between them is known if and only if its surface has no name |
| Scanners.LineCountsBreaks | tools/wit_codegen.c:613-620 | the line is one more than the line breaks consumed |
| Scanners.ColumnMeasuresLine | tools/wit_codegen.c:613-620 | the column is the distance from the last line break or the start |
| Scanners.Scanner.Advance | tools/wit_codegen.c:613-620 | one character on; position, line and column stay those of the consumed prefix |
| Scanners.Scanner.SkipWhitespace | tools/wit_codegen.c:798-824 | blanks, comments and attributes are passed, and nothing else |
| Scanners.Scanner.ConsumeLeadingMetadata | tools/wit_codegen.c:748-796 | collects the attributes in front and stops exactly where plain skipping stops |
| Scanners.Scanner.MatchTrailingSemicolon | tools/wit_codegen.c:836-856 | the probe is adopted only on a match; otherwise nothing moves |
| Scanners.Scanner.ScanIdent | tools/wit_codegen.c:872-895 | the longest name of bounded length behind trivia and an optional escape |
| Scanners.Scanner.MatchKeyword | tools/wit_codegen.c:909-923 | matches a whole word only |
| ScanText.TriviaIsGone | tools/wit_codegen.c:798-824 | skipping twice is skipping once |
| TypeParser.ParseTypeExpr | tools/wit_codegen.c:1616-1670 | the recursive parser succeeds exactly where the grammar does, stops where it stops, and its pool index stands for the parsed tree; children lie above their parent and earlier nodes are untouched |
| TypeParser.ParseGenericParam | tools/wit_codegen.c:1674-1685 | an underscore is an omitted parameter, anything else a type |
| TypeParser.TypePool.Alloc | tools/wit_codegen.c:73-85 | a new node goes on top of the pool |
| TypeParser.TreeDependsAbove | tools/wit_codegen.c:73-85 | a tree is made of nodes at and above its index only |
| TypeText.ParsesGrammatical | tools/wit_codegen.c:1616-1685 | the trees the parser can return |
| TypeText.PrintThenParse | tools/wit_codegen.c:88-120 | a printed tree parses back to itself if and only if it is printable, and the parser stops behind it up to trivia |
| TypeText.ReparseExactly | tools/wit_codegen.c:1616-1685 | for any text that parses, printing and parsing again agrees if and only if the tree is printable |
| TypeText.PrintInjective | tools/wit_codegen.c:88-120 | different printable trees have different texts |
| TypeText.BareResultIsLost | tools/wit_codegen.c:88-120 | `result` parses, prints as `result<>`, and that does not parse |
| TypeText.EscapeIsLost | tools/wit_codegen.c:1616-1685 | `list<%_x>` parses to a named parameter, and its printed text parses to another tree |
| Declarations.ParseScope | tools/wit_codegen.c:3834-4004 | a scope declares exactly the entries of the grammar, in order and with their types as pool trees, and stops where the grammar stops; a nested scope succeeds only behind its closing brace, the whole source only at its end; a refused declaration fails it |
| Declarations.ParseItem | tools/wit_codegen.c:3834-4004 | one round of a scope declares exactly what the grammar reads there, closes the scope, or fails, and otherwise leaves strictly less to read |
| Declarations.ParseFunction | tools/wit_codegen.c:3850-3857 | a constructor or function is declared with its owner and kind exactly where the grammar has one; nothing moves where none starts, and behind one that goes wrong the scanner stands where the grammar says |
| Declarations.ParseResource | tools/wit_codegen.c:2575-2593 | a resource is declared ahead of its items, if it has any |
| Declarations.ParseMembers | tools/wit_codegen.c:1687-1706 | the body loop reads exactly the members of the grammar, up to its limit, their types as pool trees |
| Declarations.ParseTypeBody | tools/wit_codegen.c:1687-1759 | a record, variant, enum or flags declaration is added exactly where the grammar has one, with its name and members; otherwise the parser fails |
| Declarations.ParseTypeAlias | tools/wit_codegen.c:1761-1769 | an alias is added exactly where the grammar has one, with its target; otherwise the parser fails |
| Declarations.ParseParams | tools/wit_codegen.c:2234-2266 | the parameter loop reads exactly the grammar's list; a comma after the last parameter that fits is an error |
| Declarations.ParseSignature | tools/wit_codegen.c:2268-2294 | parameters, result and semicolon; a missing result is none or the resource itself |
| Declarations.TryParseNamedFunc | tools/wit_codegen.c:2317-2340 | succeeds exactly where the grammar has a function, with its name, signature and kind; nothing moves where none starts, and a failure stops at the exact place |
| Declarations.TryParseConstructor | tools/wit_codegen.c:2391-2402 | succeeds exactly where the grammar has a constructor, which returns its resource unless it says otherwise |
| Declarations.ParseWorldItems | tools/wit_codegen.c:2933-2961 | a world declares exactly the items of the grammar, in order, with the interfaces and functions written out in them, up to its closing brace |
| Declarations.ParseWorldEndpoint | tools/wit_codegen.c:2851-2931 | the probe decides between an inline interface, an inline function and a reference as the grammar does |
| DeclRender.MembersComeBack | tools/wit_codegen.c:1687-1706 | members written out with a comma behind each are read back exactly, up to the limit |
| DeclRender.SignatureComesBack | tools/wit_codegen.c:2234-2294 | a written signature is read back with its parameters and its result |
| ScopeRender.MethodsRead | tools/wit_codegen.c:3834-4004 | the constructors, methods and static functions of a resource are read back in order, provided that no other function is named like the constructor's keyword |
| ScopeRender.FileReads | tools/wit_codegen.c:3834-4004 | whatever file is written out, with a package and interfaces of types, aliases, functions, uses and resources, reading it declares exactly these, in order |
| ScopeRender.BrokenFunctionIsDropped | tools/wit_codegen.c:3850-3857 | a function in an interface whose parameter has no type is passed over: the scope is read as if it were not there, with success |
| Utf8.StoredIsDecoded | examples/wit_textpad_window.c:367-389 | what the runtime stores for the encoding of any 32-bit number |
| Utf8.DecodeCodepoints | src/runtime/wit_text_runtime.c:329-379 | the decoding loop computes the strict decoder |
| Utf8.DecodesExactlyEncodings | src/runtime/wit_text_runtime.c:246-379 | bytes are accepted as `t` if and only if they are the encoding of `t` |
| Utf8.CountCodepoints | examples/wit_textpad_window.c:303-314 | the loop counts starting bytes, on arbitrary bytes |
| Utf8.CodepointToByte | examples/wit_textpad_window.c:316-334 | the loop finds the starting byte with `k` before it, on arbitrary bytes |
| Utf8.DecodeCodepointAt | examples/wit_textpad_window.c:336-365 | the lenient reading at the k-th start, on arbitrary bytes |
| Utf8.CountsCodepoints | examples/wit_textpad_window.c:303-314 | over valid text the count is the number of code points |
| Utf8.FindsOffsets | examples/wit_textpad_window.c:316-334 | over valid text the offset is the length of the first `k` encodings |
| Utf8.FindsCodepoints | examples/wit_textpad_window.c:336-365 | over valid text the k-th code point is read |
| Utf8.SliceIsSelection | examples/wit_textpad_window.c:709-716 | the bytes between two offsets are the encoding of the code points between them |
| Motion.PrevBoundary | examples/wit_textpad_window.c:408-439 | the loops stop where leftward motion does, on arbitrary bytes |
| Motion.NextBoundary | examples/wit_textpad_window.c:441-472 | the loops stop where rightward motion does, on arbitrary bytes |
| Motion.WordLeftIs | examples/wit_textpad_window.c:408-439 | word motion stops at `to` if and only if `to` starts the maximal same-class run before the spaces; it is strict |
| Motion.WordRightIs | examples/wit_textpad_window.c:441-472 | the same to the right |
| Motion.WordMotionMirrors | examples/wit_textpad_window.c:408-472 | rightward motion is leftward motion over the reversed text |
| Motion.RightThenLeft | examples/wit_textpad_window.c:408-472 | from the start of a run, a word right and a word left come back |
| Textpads.Textpad.DeleteRange | examples/wit_textpad_window.c:514-540 | erases the range, with the caret at its start, or changes nothing |
| Textpads.Textpad.InsertUtf8 | examples/wit_textpad_window.c:542-570 | splices in what the bytes decode to and keeps the code point count true, or changes nothing |
| Textpads.Textpad.ReplaceSelection | examples/wit_textpad_window.c:572-582 | one splice when both calls go through, and what is left when they do not |
| Textpads.Textpad.ReplaceRange | examples/wit_textpad_window.c:584-612 | the proposed edit as a splice, its offsets clipped to the new text |
| Textpads.Textpad.CopySelection | examples/wit_textpad_window.c:690-724 | hands over exactly the encoding of the selected code points |
| Textpads.Textpad.ApplyAction | examples/wit_textpad_window.c:843-1022 | every action computes its step of the abstract state, whatever its surroundings answer, and cursor, anchor and count stay right |
| TextpadTheorems.RunKeepsBounds | examples/wit_textpad_window.c:843-1022 | cursor and anchor stay inside the text over any run of actions and failures |
| TextpadTheorems.FailuresKeepTextUnlessTorn | examples/wit_textpad_window.c:572-582 | an action that does not apply changes nothing if and only if no deletion went through ahead of a refused insertion |
| TextpadTheorems.BadPasteLosesSelection | examples/wit_textpad_window.c:572-582 | pasting one byte that is not UTF-8 over a selection erases the selection |
| TextpadTheorems.CutThenPasteRestores | examples/wit_textpad_window.c:843-1022 | pasting what was cut restores the text |
| TextpadTheorems.CopyThenPasteKeepsText | examples/wit_textpad_window.c:843-1022 | pasting what was copied over the selection keeps the text |
| TextpadTheorems.TypingStores | examples/wit_textpad_window.c:614-624 | typing a number stores exactly that code point if and only if it is one |
| TextpadTheorems.TypingStoresAnother | examples/wit_textpad_window.c:614-624 | a number above the code point range that is stored, as another code point |
| TextpadTheorems.TypingIsPasting | examples/wit_textpad_window.c:614-624 | typing a line code point by code point does what pasting it does |
| TextpadTheorems.DeleteLeftUndoesTyping | examples/wit_textpad_window.c:843-1022 | deleting to the left takes one typed code point back |
| TextpadTheorems.DeletionIsSelectThenDelete | examples/wit_textpad_window.c:843-1022 | deleting sideways is selecting by that motion and deleting the selection |
| TextpadTheorems.MotionIsStrict | examples/wit_textpad_window.c:408-472 | motion makes progress if and only if it is not at the edge |
| TextpadTheorems.SelectAllThenPasteReplaces | examples/wit_textpad_window.c:843-1022 | the whole text is replaced, or erased when the bytes are not UTF-8 |
| XpiSolver.ClosureIsLeast | tools/solve_xpi_requirements.py:47-55 | the closure is requires-closed and inside every requires-closed set around the seed |
| XpiSolver.ClosureOfUnion | tools/solve_xpi_requirements.py:189-219 | closing in two steps is closing at once |
| XpiSolver.Selection.Collect | tools/solve_xpi_requirements.py:47-55 | recursion over the shared set ends on cyclic requirements, expands everything it adds, and adds nothing a closed set could do without |
| XpiSolver.Selection.CollectAll | tools/solve_xpi_requirements.py:189-199 | collecting several roots gives the closure of the extended seed |
| XpiSolver.CompatibilityGrows | tools/solve_xpi_requirements.py:97-105 | more traits rule nothing out, unless there were none before |
| XpiSolver.ChooseSlotBundle | tools/solve_xpi_requirements.py:108-166 | the candidate loop and its three errors compute the choice |
| XpiSolver.Setting.ChoiceIsUniqueBest | tools/solve_xpi_requirements.py:108-166 | a choice is made if and only if some candidate is viable, and it is the one viable candidate with the least score |
| XpiSolver.Solve | tools/solve_xpi_requirements.py:169-224 | the plan selects the least closed set around roots and picks, binds every open slot and leaves none unresolved; or the first error |
| XpiSolver.PicksAreBest | tools/solve_xpi_requirements.py:200-219 | each pick is best at its turn and conflicts with nothing selected by then |
| XpiSolver.PicksOrderFree | tools/solve_xpi_requirements.py:108-166 | picks and failures do not depend on the order of candidates, requirements, conflicts or traits |
| XpiSolver.SolutionOrderFree | tools/solve_xpi_requirements.py:169-224 | nor does the plan |
| XpiSolver.HarmonyExactly | tools/solve_xpi_requirements.py:58-66 | the step behind the next two: the final selection is free of conflicts if and only if the roots' closure is and every pick drags in only requirements that clash with nothing |
| XpiSolver.PeacefulInputIsHarmonious | tools/solve_xpi_requirements.py:200-219 | a condition on the input alone: if the roots' closure has no conflict, no candidate of an open slot clashes with itself and nothing a candidate requires clashes with anything that roots and candidates can bring in, every successful solve is free of conflicts |
| XpiSolver.ForcedHarmonyExactly | tools/solve_xpi_requirements.py:200-219 | when every open slot has a single candidate, the same condition on the input is also necessary: a successful solve is free of conflicts if and only if it holds |
| XpiSolver.RequirementOfPickMayConflict | tools/solve_xpi_requirements.py:58-66 | an input on which the solver succeeds with a conflicting selection |

## Left out

- Named types are expanded in place: a schema type is a finite tree, so alias chains are taken to end (the code gives up after 16 hops) and recursive records cannot be written down.
- `char` is not a wire type, since the generator refuses it.
- The members of a C union are separate cells, so writing one case does not overwrite another; a reader only fills the case it then reports.
- Addresses: an undersized or dangling buffer behind a length is an error value, not undefined behaviour. Sealed regions and the wrap-around of `head + len` near the end of the 32-bit address space are not modelled.
- Numeric values of error codes: only their classes are kept.
- Fixed capacities (`MAX_*` tables, truncating `snprintf`) except the 16 type parameters, the identifier length and the limits inside the declaration parsers.
- TopoSort.Sort: type names are taken to be distinct, as the registry keeps them.
- UseBindings.Registry.Resolve: binding keys are taken to be distinct and imported files already loaded; the error for an ambiguous declaration ends the program and is not modelled.
- Lowering.Registry.LowerGroup: alias-derived reply names, result shapes and whether a type is a record are lookups that lowering does not change, and are given as functions.
- Declarations.ParseScope: the registry's later treatment of a declaration (scoped symbols, use targets, metadata text on each entry) is not part of the parser, and a fatal diagnostic is a failure.
- Declarations.ParseWorldEndpoint: an interface or function written out in a world keeps the name it is given, and a reference its text; making such names unique and resolving such references is left to the registry.
- ScopeRender.FileReads: worlds are not written out; reading them is covered by the parser's refinement only.
- LayoutDistinct.DeclaredOnce: compares leaf members by their paths, so a plain field named like the union of a result (`x_val`) is not seen as a repetition.
- LoweringOrder.RequestsBeforeCommands: that symbol qualification has left only emitted names in the mentions of source types, and that receivers are among them or are no emitted name, is a hypothesis.
- Textpads.Textpad.ApplyAction: whether the text runtime, the clipboard and the tab-edit command answer is a parameter of each action; the text itself is a sequence of code points below 2 to the 32nd long.
- File access, package search, import loading, the command line, and the formatting of the generated C text, apart from member paths.
- The scanners of `tools/wit_schema_check.c`, which would add a plain text search.
- The solver's derived report fields (artifacts, substrates, worlds, rationale), which are unions over the selection.
