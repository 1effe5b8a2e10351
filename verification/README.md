# mono-api-compare, modelled in Dafny

mono-api-compare checks whether a newer build of a .NET assembly breaks the
public API of an older one. It runs `mono-api-info2` and `mono-api-diff` on
the two assemblies and parses the diff report (`XmlDiffParser`). The parser
builds two tables:

- the **analysis table**: class name → `"missing"`/`"extra"` → member kind → member signatures;
- the **totally-new table**: element name → class names.

`ReflectAssembly` then walks every exported type of the newer assembly. For a
type whose report flags missing members, it checks each flagged member
against the type's ancestor chain (`GetParentTypes`). Constructors are always
reported. A property is reported unless some ancestor has a property of that
name. A method is reported unless some ancestor declares a method of that name
with a signature that resolves on the type (`GetMethod` with the types from
`GetTypesFromSignature`). Any other kind is printed as `NOT_IMPL`. Types that
are not in the analysis table are classified as totally new, unchanged
(present in the older assembly) or unexplained.

The model has seven modules:

- `Wrappers`: `Option` and the append-unless-present list operation.
- `Signatures`: splitting a signature at its first `(`, and the tokenizer of
  `GetTypesFromSignature`. The tokenizer is proved to return exactly the
  maximal runs of `[a-zA-Z0-9.]`.
- `Hierarchy`: `TypeNode`, which stands for a reflected type. It also holds
  the ancestor chain and the property and method aggregates built over it.
- `XmlDiffParser`: the report's class elements as a tree of `Node`s; the
  attribute scan, `LookFor`, `LookTotallyNew`, `ParseClasses` and
  `MakeAnalysis`, as pure functions threading a `Parser` value that holds the
  three class lists and the two tables.
- `Comparer`: the switch on the member kind and the four arms, as sequences
  of `Report` values (one per printed line).
- `Reflection`: the per-type loop of `ReflectAssembly`: the member counts,
  the `mcount > 0` guard, and the new/unchanged fall-through.
- `Scenarios`: worked examples on a `Widget : Shape : Object` hierarchy.

Reflection is not modelled. A type is a `TypeNode` value. Whether
`t.GetMethod(name, types)` finds a method is a `Resolver` parameter applied
to the tokens of a signature. Hash tables are Dafny maps, and their
enumeration order is unspecified. So per-type output is a map from member
kind to that kind's report lines, and `Printed` treats the lines as a set.

The method check follows the code as written. The live code
(`src/Main.cs:229-238`) asks `GetMethod` with the tokens of each *ancestor*
signature of the same name, not with the flagged signature's own types. So
any resolving overload suppresses every flagged method of that name, whatever
its parameter list: a flagged `Draw(System.Int32)` is not reported when an
ancestor's `Draw(System.String)` resolves. An earlier version, kept
commented out at `src/Main.cs:283-319`, resolved the flagged signature's own
types instead. `Comparer.ResolvingOverloadSuppressesAll` and
`Scenarios.OtherOverloadSuppresses` state the live behaviour.

## Model

| member | source | states |
|---|---|---|
| `Wrappers.AddIfAbsent` | src/XmlDiffParser.cs:66-68 | the value is present afterwards, nothing else is added, the old list is a prefix, and a duplicate-free list stays duplicate-free |
| `Signatures.Tokens` | src/Main.cs:369-380 | every token is a non-empty string of characters from `[a-zA-Z0-9.]` |
| `Signatures.TokensAreMaximalRuns` | src/Main.cs:371-377 | any text has a layout (separator gap, then token/gap pairs, consecutive tokens separated by a non-empty gap) that rebuilds it, and the tokens are exactly that layout's words in order |
| `Signatures.TokensOfLayout` | src/Main.cs:371-377 | tokenizing a well-laid-out text returns its words: no maximal run is split or merged |
| `Signatures.EmptyParameterList` | src/Main.cs:373-374 | `()` gives no tokens, so a parameterless signature asks for an empty type list |
| `Signatures.IndexOfParen` | src/Main.cs:187 | the index holds a `(` and no earlier character is one |
| `Signatures.SplitSignature` | src/Main.cs:187-188 | the name and signature concatenate back to the input, the name has no `(`, and the signature starts with `(` |
| `Signatures.SplitSignatureUnique` | src/Main.cs:227-228 | any decomposition with those three properties is the one the split returns |
| `Hierarchy.ParentTypes` | src/Main.cs:382-396 | the chain starts with the type, each element's base type is the next element, the last has no base type, and the length is the depth plus one |
| `Hierarchy.Properties` | src/Main.cs:194-199 | a name is collected exactly when some type of the chain has a property of that name |
| `Hierarchy.AllMethods` | src/Main.cs:209-210 | a (name, signature) pair is listed exactly when some type of the chain declares it |
| `Hierarchy.AddMethod` | src/Main.cs:212-222 | the table gains the method's name; a signature is listed under a name exactly when it was before or is this method's; lists stay duplicate-free |
| `Hierarchy.AddMethods` | src/Main.cs:209-224 | a name is a key exactly when it was or one of the methods has it; the listed (name, signature) pairs are the old ones plus the methods' |
| `Hierarchy.MethodTableOf` | src/Main.cs:208-224 | a name is a key exactly when some type of the chain declares it; a signature is listed under it exactly when some type declares that pair; no list repeats a signature |
| `XmlDiffParser.Attribute` | src/XmlDiffParser.cs:170 | the value found belongs to the first attribute of that name, and the lookup fails exactly when there is none |
| `XmlDiffParser.PutSection` | src/XmlDiffParser.cs:156-165 | in a known class only the given section changes, to the given kinds, and well-formedness is kept |
| `XmlDiffParser.NewClassEntry` | src/XmlDiffParser.cs:190-197 | an unknown class gets an entry holding only the given section; no other class changes |
| `XmlDiffParser.RecordInSection` | src/XmlDiffParser.cs:162-174 | the kind list exists afterwards and gains the signature unless already present; other kinds are unchanged |
| `XmlDiffParser.RecordLeaf` | src/XmlDiffParser.cs:155-202 | only the class's section changes; each kind list gains the leaf's signature unless present; a known class keeps an (empty) kind list even for a leaf without a `name`; an unknown class with an unnamed leaf leaves the table as it was; the class becomes a key exactly when the leaf has a `name` |
| `XmlDiffParser.Leaves` | src/XmlDiffParser.cs:127-138 | the leaves visited are never `warning`, `attribute` or `parameter` elements and have no children |
| `XmlDiffParser.LookFor` | src/XmlDiffParser.cs:126-205 | the walk records exactly the leaves reached depth-first and skipping ignored subtrees, in order; only the class's section changes; each kind list gains those leaves' signatures once each; the class becomes a key exactly when some leaf reached has a `name` |
| `XmlDiffParser.RecordAllKeys` | src/XmlDiffParser.cs:155-198 | recording a list of leaves adds the class to the table exactly when some leaf has a `name` attribute, and adds no other key |
| `XmlDiffParser.RecordAllAppend` | src/XmlDiffParser.cs:127-138 | recording two leaf lists one after the other is recording their concatenation |
| `XmlDiffParser.IgnoredSubtreeSkipped` | src/XmlDiffParser.cs:129-135 | an ignored element contributes nothing, however deep its subtree |
| `XmlDiffParser.RecordLeafIdempotent` | src/XmlDiffParser.cs:163-174 | recording the same leaf twice is the same as recording it once |
| `XmlDiffParser.RecordInSectionIdempotent` | src/XmlDiffParser.cs:171-174 | recording a signature already in its kind list changes nothing |
| `XmlDiffParser.DuplicateStoredOnce` | src/XmlDiffParser.cs:171-174 | a signature recorded twice is present and its kind list has no repeats |
| `XmlDiffParser.LookTotallyNew` | src/XmlDiffParser.cs:216-231 | only the totally-new table changes: the element's list gains the class name at its end (created on first use, no de-duplication), other lists are unchanged |
| `XmlDiffParser.ScanAttributes` | src/XmlDiffParser.cs:58-88 | the attribute scan leaves both tables alone, only appends to the three lists, and never lists a class twice as missing |
| `XmlDiffParser.ScanClassName` | src/XmlDiffParser.cs:58-63 | the class name in force afterwards is the last `name` attribute's value, or the starting name if there is none |
| `XmlDiffParser.ScanUnnamedMissing` | src/XmlDiffParser.cs:64-75 | for an element with no `name` attribute only: the starting name is added to the missing list exactly when some attribute is `missing` or a `complete_total` other than `100` (`ScanMissing` covers every element) |
| `XmlDiffParser.ScanUnnamedExtra` | src/XmlDiffParser.cs:76-79 | for an element with no `name` attribute only: the starting name is added to the extra list exactly when the element has children and a `presence` attribute (`ScanExtra` covers every element) |
| `XmlDiffParser.ScanUnnamedNew` | src/XmlDiffParser.cs:80-83 | for an element with no `name` attribute only: the starting name is added to the new list exactly when the element has no children and a `presence` attribute (`ScanNew` covers every element) |
| `XmlDiffParser.ScanAttribute` | src/XmlDiffParser.cs:60-87 | one attribute: `name` sets the name in force; `missing` or a `complete_total` other than `100` adds the current name to the missing list unless present; `presence` appends it to the extra list when the element has children and to the new list otherwise; anything else changes nothing; the tables are never touched |
| `XmlDiffParser.NameAtNoName` | src/XmlDiffParser.cs:58-63 | with no `name` attribute before a position, the name in force there is the starting name (the empty string for a class element) |
| `XmlDiffParser.NameAtLastName` | src/XmlDiffParser.cs:58-63 | after a `name` attribute with no other `name` before a position, the name in force there is that attribute's value |
| `XmlDiffParser.MarkedNames` | src/XmlDiffParser.cs:58-87 | a name is listed exactly when it is the name in force at some attribute the arm reads; `MarkedNamesAppend` and `MarkedNamesSingle` fix the order and repeats |
| `XmlDiffParser.MarkedNamesAppend` | src/XmlDiffParser.cs:58-59 | the names for `a + b` are those for `a` followed by those for `b`, read from the name in force after `a` |
| `XmlDiffParser.MarkedNamesSingle` | src/XmlDiffParser.cs:59-87 | one attribute contributes the name in force exactly when its arm reads it, and nothing otherwise |
| `XmlDiffParser.ScanMissing` | src/XmlDiffParser.cs:58-75 | a class is in the missing list afterwards exactly when it was before or it is the name in force at some `missing` attribute or `complete_total` other than `100` |
| `XmlDiffParser.ScanExtra` | src/XmlDiffParser.cs:58-79 | with children, the extra list is the old list followed by the name in force at each `presence` attribute, in order and with repeats; without children it is unchanged |
| `XmlDiffParser.ScanNew` | src/XmlDiffParser.cs:58-84 | without children, the new list is the old list followed by the name in force at each `presence` attribute, in order and with repeats; with children it is unchanged |
| `XmlDiffParser.ScanNamedClass` | src/XmlDiffParser.cs:58-88 | for an element whose only `name` comes first, the class name and all three list memberships are as in the three rules above |
| `XmlDiffParser.MarkBeforeNameRegistersEmpty` | src/XmlDiffParser.cs:58-75 | a `missing` attribute read before `name` lists the empty class name, not the element's name |
| `XmlDiffParser.WalkCategory` | src/XmlDiffParser.cs:94-99 | a class listed under the category has its children walked into that section, and becomes a key only if a leaf reached has a `name`; otherwise the parser is unchanged |
| `XmlDiffParser.WalkClass` | src/XmlDiffParser.cs:93-100 | only the class's own sections change, each walked exactly when the class is in that category's list; the class becomes a key only when it is listed and a leaf reached has a `name` |
| `XmlDiffParser.ParseClass` | src/XmlDiffParser.cs:57-100 | a class in the new list is only registered as totally new: one list, under the element's name, gains it and every other list and the analysis table are untouched; any other class only has its listed sections walked, and enters the analysis table only if a walked leaf has a `name`; registrations are never lost |
| `XmlDiffParser.ParseClasses` | src/XmlDiffParser.cs:56-101 | across all class elements, registrations are kept, the analysis table stays well formed, and the missing list stays duplicate-free; `ParseClassesAppend` and `ParseClassesSingle` say which element does what |
| `XmlDiffParser.ParseClassesAppend` | src/XmlDiffParser.cs:56-57 | parsing the elements of `a + b` parses those of `a`, then those of `b` from the state `a` left |
| `XmlDiffParser.ParseClassesSingle` | src/XmlDiffParser.cs:57-100 | a single class element is handled by `ParseClass` alone |
| `XmlDiffParser.MakeAnalysis` | src/XmlDiffParser.cs:38-49 | the resulting analysis table is well formed and the missing list has no duplicates; `MakeAnalysisInDocumentOrder` ties the result to the report's class elements |
| `XmlDiffParser.MakeAnalysisInDocumentOrder` | src/XmlDiffParser.cs:38-57 | an empty report leaves the five collections empty, and each further class element is handed to `ParseClass` in document order |
| `XmlDiffParser.MakeAnalysisIgnoresEarlierRuns` | src/XmlDiffParser.cs:39-43 | the result depends on the report alone, since all five collections are reset first |
| `Comparer.ConstructorReports` | src/Main.cs:184-192 | one line per flagged constructor, in order, its name and signature splitting the flagged text at the first `(` |
| `Comparer.PropertyReports` | src/Main.cs:200-205 | a property line is printed exactly when the name is flagged and not among the collected properties; every line is a property line for the type and the newer assembly |
| `Comparer.PropertyReportsAppend` | src/Main.cs:200-205 | the arm works name by name: the lines for two lists of names, one after the other, are the lines of the first followed by those of the second |
| `Comparer.PropertyReportsSingle` | src/Main.cs:200-205 | one flagged name gives one line when no collected property has it and none otherwise (with `PropertyReportsAppend`, this fixes the order and the number of lines) |
| `Comparer.MethodLine` | src/Main.cs:227-249 | the printed method line's name and signature concatenate back to the flagged text |
| `Comparer.AnyResolvesIff` | src/Main.cs:232-243 | the loop over a name's recorded signatures finds one exactly when some signature, tokenized, resolves on the type |
| `Comparer.SearchOverloads` | src/Main.cs:226-246 | the search as written, which tries every signature of the name's entry, sets `found` exactly when the name has an entry one of whose signatures resolves on the type |
| `Comparer.MethodReports` | src/Main.cs:225-251 | a line is printed exactly for each flagged method whose name is not found in the aggregate |
| `Comparer.MethodReportsAreMethodLines` | src/Main.cs:247-250 | every line of the method arm is a method line for the type and the newer assembly |
| `Comparer.MethodReportsAppend` | src/Main.cs:225-251 | the arm works name by name: the lines for two lists of flagged methods, one after the other, are the lines of the first followed by those of the second |
| `Comparer.MethodReportsSingle` | src/Main.cs:225-251 | one flagged method gives its split line when its name is not found and nothing otherwise (with `MethodReportsAppend`, this fixes the order and the number of lines) |
| `Comparer.NotImplementedReports` | src/Main.cs:253-258 | one `NOT_IMPL` line per flagged member of any other kind, in order |
| `Comparer.KindReports` | src/Main.cs:183-259 | each arm of the switch prints only lines of its own kind and never more lines than flagged names; the constructor and default arms print exactly one line per name |
| `Comparer.KindReportsFlagged` | src/Main.cs:183-259 | every printed line names the type, the newer assembly and one of the flagged names of its arm; a `NOT_IMPL` line comes only from a kind other than constructor, property and method |
| `Comparer.ConstructorsAlwaysReported` | src/Main.cs:184-192 | every flagged constructor is reported whatever the ancestors declare and whatever resolves |
| `Comparer.PropertyReportedIff` | src/Main.cs:193-206 | a flagged property is reported exactly when no type of the ancestor chain has a property of that name |
| `Comparer.FoundIsDeclared` | src/Main.cs:229-238 | a name the aggregate finds is declared by some type of the chain with a resolving signature |
| `Comparer.DeclaredIsFound` | src/Main.cs:229-238 | a declaration on the chain whose signature resolves makes the aggregate find the name |
| `Comparer.MethodFoundIff` | src/Main.cs:208-245 | the aggregate finds a name exactly when some ancestor declares it with a signature that resolves on the type |
| `Comparer.MethodLineKeptIff` | src/Main.cs:225-251 | the line of a flagged method is printed exactly when its name is not found |
| `Comparer.AllFoundNothingReported` | src/Main.cs:225-251 | when every flagged name is found, the method arm prints nothing |
| `Comparer.MethodReportedIff` | src/Main.cs:207-252 | a flagged method is reported exactly when no ancestor declares a method of its name whose signature resolves on the type |
| `Comparer.UndeclaredMethodReported` | src/Main.cs:229-250 | a flagged method whose name no ancestor declares is always reported |
| `Comparer.ResolvingOverloadSuppressesAll` | src/Main.cs:229-238 | one resolving ancestor overload suppresses every flagged method of that name, whatever its own parameter list |
| `Comparer.OtherKindsNotImplemented` | src/Main.cs:253-258 | every member of another kind gives one `NOT_IMPL` line, in order |
| `Reflection.SumOverRemove` | src/Main.cs:160-162 | the member count does not depend on which kind is enumerated first |
| `Reflection.SumPositive` | src/Main.cs:160-173 | the count is positive exactly when some kind lists a member |
| `Reflection.SumSection` | src/Main.cs:160-166 | the loop adds up the lengths of every kind list of a section |
| `Reflection.Counts` | src/Main.cs:155-168 | `mcount` is the missing section's total and 0 without one; `ecount` is the extra total only when both sections exist; `mcount > 0` exactly when a missing member is flagged |
| `Reflection.SectionReports` | src/Main.cs:173-183 | one entry per flagged kind of the missing section, and no other (the content of each entry is stated by `Reflection.PrintedIff`) |
| `Reflection.ReflectType` | src/Main.cs:150-345 | a type is analysed exactly when it is in the analysis table; otherwise totally new exactly when registered in the totally-new table; otherwise unchanged exactly when an old type has its name; an analysed type prints only if a missing member is flagged |
| `Reflection.AnalyseType` | src/Main.cs:151-345 | the iteration as written (counts first, `mcount > 0` guard, the two `foreach` searches of the fall-through) has the same outcome as `ReflectType` |
| `Reflection.ReflectAssembly` | src/Main.cs:150-151 | one outcome per exported type of the newer assembly, in order, each computed independently |
| `Reflection.PrintedIff` | src/Main.cs:151-259 | a line is printed for a type exactly when the type is in the analysis table, its missing section flags a member, and the switch prints that line for one of the section's kinds |
| `Reflection.PrintedPropertyIff` | src/Main.cs:151-206 | a property line is printed for a type exactly when the type's missing section flags that property and no type of its ancestor chain has a property of that name |
| `Reflection.PrintedMethodIff` | src/Main.cs:151-252 | a flagged method's line is printed exactly when no type of the ancestor chain declares its name with a signature that resolves on the type |
| `Reflection.FlaggedConstructorsPrinted` | src/Main.cs:151-192 | every flagged constructor of an analysed type is printed, split at its first `(` |
| `Reflection.PrintedLinesAreFlagged` | src/Main.cs:173-258 | every printed line names the type and the newer assembly and comes from a member flagged under that kind in the missing section |
| `Reflection.ExtraSectionIgnored` | src/Main.cs:268-269 | replacing a type's extra section changes nothing in its outcome |
| `Reflection.AnalysisTakesPrecedence` | src/Main.cs:151-333 | a type in the analysis table is analysed even if it is also registered as new and present in the older assembly |
| `Reflection.OnlyAnalysedTypesPrint` | src/Main.cs:322-345 | types outside the analysis table print nothing |
| `Scenarios.PropertyMissingEverywhere` | src/Main.cs:193-206 | `Color` flagged on a `Widget` whose chain has no `Color` gives one `Can't find property` line |
| `Scenarios.PropertyInheritedSuppressed` | src/Main.cs:193-206 | the same flag is suppressed when the base type `Shape` has `Color` |
| `Scenarios.SplitDraw` | src/Main.cs:227-228 | `Draw(System.Int32)` splits into `Draw` and `(System.Int32)` |
| `Scenarios.StringSignatureTokens` | src/Main.cs:371-377 | the signature `(System.String)` gives the single token `System.String` |
| `Scenarios.OtherOverloadSuppresses` | src/Main.cs:229-238 | a flagged `Draw(System.Int32)` is suppressed when the base type's `Draw(System.String)` resolves |
| `Scenarios.NoResolvingOverloadReports` | src/Main.cs:225-250 | without a resolving overload the flagged method is reported with name `Draw` and signature `(System.Int32)` |
| `Scenarios.AttributeOnlyClassNotAnalysed` | src/XmlDiffParser.cs:128-135 | a missing class whose only child is an `attribute` element never enters the analysis table |
| `Scenarios.NewClassOnlyRegistered` | src/XmlDiffParser.cs:76-92 | a childless class element with `presence` is registered as totally new and leaves the analysis table alone |

## Left out

- Reading the XML: the model receives the `class` elements of the report in document order as `Node` trees. An element "has child nodes" when its `children` list is non-empty; text and whitespace nodes are not represented.
- Reflection: loading assemblies, `GetExportedTypes`, `GetProperties`, `GetMethods` and `MethodInfo.ToString` become the fields of `TypeNode`, whose methods are already split into name and parenthesised signature.
- `Type.GetType` on each token and `Type.GetMethod` together become the `Resolver` parameter. A token that `Type.GetType` cannot resolve gives a null type, on which `GetMethod` throws; that crash is not modelled, and the resolver simply answers.
- `Comparer.MethodReports`: a flagged constructor or method without `(` makes `Substring` throw and the program stop. The model requires every such signature to contain `(` instead of modelling the crash.
- `Reflection.Counts`: `mcount` and `ecount` are 32-bit `int`s in the source. The model counts with unbounded integers, because overflow would need more than 2^31 flagged members.
- Running `mono-api-info2` and `mono-api-diff`, temporary files, command-line handling, help text and `Main`: process and file I/O.
- Console and debug output: the printed text becomes `Report` values, the `Total to analyze` line is not modelled, and the message printed when a leaf without a `name` attribute throws inside `LookFor` is dropped (its effect on the tables is modelled).
- The `ecount > 0` branch (src/Main.cs:268-269) and the "Implement this" block for totally-new types (src/Main.cs:329-330) have empty bodies; the model performs no action for them.
- The unexplained case (a type in neither table nor the older assembly) only has a commented-out message in the source; it is the `Unexplained` outcome.
- Hash-table enumeration order: tables are maps. Report lines are grouped per member kind in a map and, across kinds, treated as a set.
- Repeated attributes: `Node.attrs` is a list, so it may hold two `name` attributes, which an XML document never does. The scan lemmas cover that case too; with unique names the name in force changes at most once, from `""` to the class name.
- testlibrary1/MyClass.cs is a fixture assembly for manual runs and is not part of this model.
