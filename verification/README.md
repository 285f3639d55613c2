# Polaris cross-reference core, modelled in Dafny

Polaris is a code search engine for Java projects. Its indexer parses each
source file in three passes. The first two passes discover types and
members. The third pass walks the syntax tree again, with a scope-aware
symbol table, and records a *usage* for three kinds of node:

- the declared type of every local variable;
- every method call whose target it can pin down;
- every object creation whose constructor it can pin down.

The web front ends then show this data:

- a GWT page controller keeps the current page in the browser's history
  token (`p=search&q=...`, `p=source&file=...`);
- an AngularJS search box offers completions as the user types;
- a small JavaScript helper module trims names, turns offsets into line
  numbers and builds jump-target links.

This project models those pieces as pure functions over immutable data, and
proves properties of them:

| module | file | models |
|---|---|---|
| `Results` | results.dfy | Option and Result types, and the Java/JavaScript exceptions the model can raise |
| `Text` | text.dfy | `indexOf`, `lastIndexOf`, splitting on a separator, `omitEmptyStrings`, decimal formatting and parsing |
| `Protos` | protos.dfy | the protocol records: type handles, classes, methods, fields, jump targets, usages |
| `TypeUtils` | type_utils.dfy | primitive-type parsing and the package / simple-name split |
| `SymbolTable` | symbol_table.dfy | the symbol table: registry, frames, class stack, package and imports, name resolution |
| `ThirdPass` | third_pass.dfy | the third pass: the visitor and `extract` |
| `Scenarios` | scenarios.dfy | worked examples of the third pass on concrete trees |
| `PageController` | page_controller.dfy | history tokens: `buildParameters`, `handleHistoryToken`, the two token builders |
| `Helper` | helper.dfy | `dropPackageName`, `dropPackageAndClassName`, `codeOffsetToLineNum`, `convertJumpTargetToUrlFragment` |
| `SearchBox` | search_box.dfy | the search-box directive as a state machine over its scope variables |

A Java method that mutates the symbol table in place becomes a function
from a table to an `Outcome`:

- `Done(table)` when the method returns;
- `Threw(error, table)` when it throws, where `table` is the state the
  exception left behind.

Visiting a node gives a `Pass`: either `Completed(table, usages)` or
`Aborted(error, table)`. An exception escaping the visitor aborts the whole
file, as in the source. The code has no `finally` around the compilation
unit, so an aborted file leaves its unit entered, and the next file given the same table
cannot enter its own. The model follows the code
(`ThirdPass.AbortedExtractBlocksNextFile`).

In the JavaScript, a property access on `undefined` throws a `TypeError`.
The model makes that error explicit as a `Result`.

Where the source relies on a library routine whose text is not part of this
model, the model states the behaviour it assumes:

- `TypeUtils.getPackage` returns the text before the last `.`, or null when
  there is none;
- `TypeUtils.getSimpleName` returns the text after the last `.`;
- `PrimitiveTypes.parse` accepts the eight Java primitive keywords;
- Guava's `Splitter.on("&").omitEmptyStrings()` splits at every `&` and
  drops empty pieces;
- `ImmutableMap.Builder.build` rejects a repeated key;
- `goog.string.countOf` counts occurrences;
- `goog.string.format("%d")` writes an integer in decimal.

## Model

| member | source | states |
|---|---|---|
| Text.IndexOf | polaris-web/src/main/java/com/codingstory/polaris/web/client/PageController.java:40 | `indexOf` is -1 exactly when the character is absent, and otherwise the position of its first occurrence |
| Text.LastIndexOf | polaris-webui/src/main/webapp/js/polaris/helper.js:13 | `lastIndexOf` is -1 exactly when the character is absent, and otherwise a position holding it with none after it |
| Text.AfterLast | polaris-webui/src/main/webapp/js/polaris/helper.js:13-14 | the text after the last separator: a suffix free of the separator, preceded by the separator unless it is the whole input, and the whole input exactly when the separator is absent |
| Text.AfterLastOfSuffix | polaris-webui/src/main/webapp/js/polaris/helper.js:13-14 | the text after the final separator of `a + sep + b`, with `b` separator-free, is `b` |
| Text.RemoveStart | polaris-core/src/main/java/com/codingstory/polaris/parser/SymbolTable.java:213-215 | `removeStart` strips the prefix when the text starts with it, and otherwise changes nothing |
| Text.CountOfIsMultiplicity | polaris-webui/src/main/webapp/js/polaris/helper.js:27 | `countOf` is the number of occurrences: the character's multiplicity in the text |
| Text.CountOfPrefixMonotone | polaris-webui/src/main/webapp/js/polaris/helper.js:27 | a longer prefix holds at least as many occurrences as a shorter one |
| Text.Split | polaris-web/src/main/java/com/codingstory/polaris/web/client/PageController.java:39 | splitting gives at least one piece, and no piece contains the separator |
| Text.JoinSplit | polaris-web/src/main/java/com/codingstory/polaris/web/client/PageController.java:39 | splitting loses nothing: joining the pieces with the separator gives back the token |
| Text.SplitAfterPrefix | polaris-web/src/main/java/com/codingstory/polaris/web/client/PageController.java:39 | a separator-free leading piece is split off as the first piece, and the rest is split on its own |
| Text.OmitEmpty | polaris-web/src/main/java/com/codingstory/polaris/web/client/PageController.java:39 | `omitEmptyStrings` keeps exactly the non-empty pieces, each as many times as it occurs: the multiset of pieces with the empty string removed |
| Text.OmitEmptyAppend | polaris-web/src/main/java/com/codingstory/polaris/web/client/PageController.java:39 | filtering a concatenation filters each side and keeps the two results in order, so the kept pieces stay in the order of the input |
| Text.OmitEmptyOfNonEmpty | polaris-web/src/main/java/com/codingstory/polaris/web/client/PageController.java:39 | pieces that are all non-empty are kept as they are |
| Text.ConcatSplit | polaris-web/src/main/java/com/codingstory/polaris/web/client/PageController.java:39 | gluing the pieces of a split back together gives the text with every separator removed |
| Text.IntStringRoundTrip | polaris-webui/src/main/webapp/js/polaris/helper.js:6-9 | the decimal text written for an integer reads back as that integer, negative ones included |
| TypeUtils.ParsePrimitive | polaris-core/src/main/java/com/codingstory/polaris/parser/SymbolTable.java:108-110 | a name parses exactly when it is the keyword of a primitive type, and then to the type whose keyword it is |
| TypeUtils.ParsePrimitiveName | polaris-core/src/main/java/com/codingstory/polaris/parser/SymbolTable.java:108-110 | each of the eight primitive keywords parses back to its type |
| TypeUtils.SimpleName | polaris-core/src/main/java/com/codingstory/polaris/parser/SymbolTable.java:256 | the simple name is a dot-free suffix of the qualified name |
| TypeUtils.PackageOf | polaris-core/src/main/java/com/codingstory/polaris/parser/SymbolTable.java:246 | a name has a package exactly when it contains a dot |
| TypeUtils.PackageAndSimpleName | polaris-core/src/main/java/com/codingstory/polaris/parser/SymbolTable.java:242-257 | a qualified name is its package, a dot and its simple name, so within one package the simple name determines the class |
| SymbolTable.NewTable | polaris-core/src/main/java/com/codingstory/polaris/parser/SymbolTable.java:68-70 | a new table binds no variable, holds no class by handle, location or name, has no current class and no import map, is outside any compilation unit, and has exactly one frame |
| SymbolTable.BindAllLastWins | polaris-core/src/main/java/com/codingstory/polaris/parser/SymbolTable.java:212-216 | registering bindings in order leaves each name bound to the type of its last binding, and every other name as it was |
| SymbolTable.EnterScope | polaris-core/src/main/java/com/codingstory/polaris/parser/SymbolTable.java:203-205 | entering a scope pushes one frame and keeps every enclosing frame |
| SymbolTable.LeaveScope | polaris-core/src/main/java/com/codingstory/polaris/parser/SymbolTable.java:238-240 | leaving a scope pops the innermost frame, and throws `NoSuchElementException` on an empty stack without changing anything |
| SymbolTable.EnterCompilationUnit | polaris-core/src/main/java/com/codingstory/polaris/parser/SymbolTable.java:190-195 | entering a unit throws `IllegalStateException` when one is already active; otherwise it sets the package, installs an empty import map and pushes a frame, leaving the registry and the class stack alone |
| SymbolTable.LeaveCompilationUnit | polaris-core/src/main/java/com/codingstory/polaris/parser/SymbolTable.java:197-201 | leaving a unit clears the package and the imports and pops one frame; it throws only when no frame is left |
| SymbolTable.EnterClassScope | polaris-core/src/main/java/com/codingstory/polaris/parser/SymbolTable.java:208-218 | entering a class pushes a frame with no types above the enclosing frames, and pushes the class on the class stack; package, imports and registry stay |
| SymbolTable.LeaveClassScope | polaris-core/src/main/java/com/codingstory/polaris/parser/SymbolTable.java:220-223 | leaving a class pops a frame and a class, and throws `NoSuchElementException` exactly when either stack is empty |
| SymbolTable.EnterMethodScope | polaris-core/src/main/java/com/codingstory/polaris/parser/SymbolTable.java:226-232 | entering a method pushes a frame above the enclosing frames, and leaves the class stack, package, imports and registry alone |
| SymbolTable.LeaveMethodScope | polaris-core/src/main/java/com/codingstory/polaris/parser/SymbolTable.java:234-236 | leaving a method pops exactly one frame, and throws exactly when there is none |
| SymbolTable.LookupVariable | polaris-core/src/main/java/com/codingstory/polaris/parser/SymbolTable.java:274-283 | a variable's type comes from the innermost frame that binds it, and is absent exactly when no frame binds it |
| SymbolTable.GetVariableType | polaris-core/src/main/java/com/codingstory/polaris/parser/SymbolTable.java:274-283 | a variable's type is the one in the innermost frame that binds it, and null exactly when no frame binds it |
| SymbolTable.GetClassTypeByLocation | polaris-core/src/main/java/com/codingstory/polaris/parser/SymbolTable.java:285-293 | the class registered at the file and span, and null exactly when none is |
| SymbolTable.GetClassByHandle | polaris-core/src/main/java/com/codingstory/polaris/parser/SymbolTable.java:295-298 | the class registered under the handle, and null exactly when none is |
| SymbolTable.ResolveImportAlias | polaris-core/src/main/java/com/codingstory/polaris/parser/SymbolTable.java:259-268 | throws `NullPointerException` exactly when there is no import map; otherwise the alias's qualified name, absent exactly when the alias is not imported |
| SymbolTable.CurrentClass | polaris-core/src/main/java/com/codingstory/polaris/parser/SymbolTable.java:186-188 | the current class is the top of the class stack; an empty stack throws `NoSuchElementException` |
| SymbolTable.RegisterClassType | polaris-core/src/main/java/com/codingstory/polaris/parser/SymbolTable.java:171-180 | registering a class throws `IllegalStateException` with no frame; otherwise the class is entered under its qualified name, its handle and its location, replacing any earlier class there and keeping every other entry, the innermost frame lists it under its qualified name, and every other frame, the scopes and the imports are kept |
| SymbolTable.RegisteredClassIsFindable | polaris-core/src/main/java/com/codingstory/polaris/parser/SymbolTable.java:171-180 | a registered class is then found by its qualified name, by its handle and by its declaration location |
| SymbolTable.RegisterVariable | polaris-core/src/main/java/com/codingstory/polaris/parser/SymbolTable.java:270-272 | after a variable is registered, its name resolves to the given type and every other name resolves as before; with no frame it throws |
| SymbolTable.RegisterImportClass | polaris-core/src/main/java/com/codingstory/polaris/parser/SymbolTable.java:253-257 | a single-class import makes the class's simple name an alias of its qualified name and keeps every other alias; outside a unit it throws `NullPointerException` |
| SymbolTable.PackageAliases | polaris-core/src/main/java/com/codingstory/polaris/parser/SymbolTable.java:242-251 | the aliases a wildcard import adds map the simple name of each class the frames list in that package to the class's qualified name, and nothing else |
| SymbolTable.RegisterImportPackage | polaris-core/src/main/java/com/codingstory/polaris/parser/SymbolTable.java:242-251 | a wildcard import aliases every class of the package known now and keeps every other alias; it throws only when there is something to alias outside a unit |
| SymbolTable.WildcardImportIsSnapshot | polaris-core/src/main/java/com/codingstory/polaris/parser/SymbolTable.java:242-251 | a class of the imported package registered after the wildcard import gets no alias, and is then found only through the same-package step |
| SymbolTable.FirstRegistered | polaris-core/src/main/java/com/codingstory/polaris/parser/SymbolTable.java:131-169 | the class registered under the first registered name of a priority list, absent exactly when none is registered |
| SymbolTable.ResolveClass | polaris-core/src/main/java/com/codingstory/polaris/parser/SymbolTable.java:131-169 | a registered qualified name is found without the import map; any other lookup outside a unit throws `NullPointerException`; inside a unit resolution never throws |
| SymbolTable.ResolveClassIsFirstCandidate | polaris-core/src/main/java/com/codingstory/polaris/parser/SymbolTable.java:131-169 | inside a unit, resolution returns the class under the first registered of: the name, its import alias, the name in the current package; the fourth step never adds anything |
| SymbolTable.ResolveClassHandle | polaris-core/src/main/java/com/codingstory/polaris/parser/SymbolTable.java:112-129 | the handle of the resolved class, or else an unresolved handle named by the import expansion; it fails exactly when the name is unregistered and no unit is active |
| SymbolTable.ResolveTypeHandle | polaris-core/src/main/java/com/codingstory/polaris/parser/SymbolTable.java:100-106 | a primitive keyword gives its primitive type; any other name gives the class handle resolution picks; it fails exactly when that class resolution fails |
| SymbolTable.CompilationUnitRoundTrip | polaris-core/src/main/java/com/codingstory/polaris/parser/SymbolTable.java:190-201 | entering and then leaving a compilation unit gives back the table |
| SymbolTable.EnterCompilationUnitTwiceFails | polaris-core/src/main/java/com/codingstory/polaris/parser/SymbolTable.java:190-195 | a second unit cannot be entered before the first is left: it throws `IllegalStateException` |
| SymbolTable.ClassScopeRoundTrip | polaris-core/src/main/java/com/codingstory/polaris/parser/SymbolTable.java:208-223 | leaving a class scope undoes entering it |
| SymbolTable.MethodScopeRoundTrip | polaris-core/src/main/java/com/codingstory/polaris/parser/SymbolTable.java:226-236 | leaving a method scope undoes entering it |
| SymbolTable.ClassScopeLookup | polaris-core/src/main/java/com/codingstory/polaris/parser/SymbolTable.java:208-218 | inside a class, a name denotes the last field with that unqualified name, and otherwise whatever it denoted outside |
| SymbolTable.MethodScopeLookup | polaris-core/src/main/java/com/codingstory/polaris/parser/SymbolTable.java:226-232 | inside a method, a name denotes the last parameter with that name, and otherwise whatever it denoted outside |
| SymbolTable.NestedBindingShadowsThenVanishes | polaris-core/src/main/java/com/codingstory/polaris/parser/SymbolTable.java:203-283 | a variable bound in a fresh scope shadows outer bindings, and leaving the scope restores the table exactly |
| ThirdPass.FindMethodBySpan | polaris-core/src/main/java/com/codingstory/polaris/parser/ThirdPassProcessor.java:134-141 | the first method declared at exactly the given span, absent exactly when no method is |
| ThirdPass.MatchingMethods | polaris-core/src/main/java/com/codingstory/polaris/parser/ThirdPassProcessor.java:219-231 | the candidates are exactly the class's methods with the qualified name and the number of parameters |
| ThirdPass.MatchingMethodsSingleton | polaris-core/src/main/java/com/codingstory/polaris/parser/ThirdPassProcessor.java:219-233 | there is exactly one candidate exactly when one method fits and no other does |
| ThirdPass.FindMethodInClass | polaris-core/src/main/java/com/codingstory/polaris/parser/ThirdPassProcessor.java:219-233 | a method is found exactly when exactly one method of the class fits the name and arity, and it is that method |
| ThirdPass.ProcessMethodCall | polaris-core/src/main/java/com/codingstory/polaris/parser/ThirdPassProcessor.java:202-217 | a call yields a usage exactly when the receiver type is a resolved handle registered in the table and the class registered under it has exactly one method `<class>.<name>` with that many parameters; the usage has the given kind and place and names such a method |
| ThirdPass.ReceiverType | polaris-core/src/main/java/com/codingstory/polaris/parser/ThirdPassProcessor.java:166-182 | no receiver or `this` means the current class, throwing `NoSuchElementException` exactly when there is none; a bare name that can be typed always gets a type; any other receiver means nothing |
| ThirdPass.VariableReceiverShadowsClass | polaris-core/src/main/java/com/codingstory/polaris/parser/ThirdPassProcessor.java:173-175 | a bare name bound as a variable means the type of its innermost binding, even when a class of that name is registered |
| ThirdPass.UnboundReceiverIsType | polaris-core/src/main/java/com/codingstory/polaris/parser/ThirdPassProcessor.java:173-177 | inside a compilation unit, a bare name no frame binds means the class registered under its first registered candidate name, or else an unresolved handle named by its import expansion |
| ThirdPass.DeclareVariables | polaris-core/src/main/java/com/codingstory/polaris/parser/ThirdPassProcessor.java:153-161 | every declared name resolves to the declared type afterwards and other names are unaffected; an unresolved class type binds nothing |
| ThirdPass.Visit | polaris-core/src/main/java/com/codingstory/polaris/parser/ThirdPassProcessor.java:63-200 | a visit keeps the registry and the package; when it completes it restores the class stack and the frame depth; inside a unit only an undiscovered declaration or a missing class aborts it |
| ThirdPass.VisitClassBody | polaris-core/src/main/java/com/codingstory/polaris/parser/ThirdPassProcessor.java:109-119 | a class body is visited between entering and leaving its scope, and restores what a visit keeps |
| ThirdPass.VisitMethodBody | polaris-core/src/main/java/com/codingstory/polaris/parser/ThirdPassProcessor.java:121-132 | a method body is visited between entering and leaving its scope, and restores what a visit keeps |
| ThirdPass.VisitAll | polaris-core/src/main/java/com/codingstory/polaris/parser/ThirdPassProcessor.java:63-200 | siblings visited in order keep what a single visit keeps |
| ThirdPass.Extract | polaris-core/src/main/java/com/codingstory/polaris/parser/ThirdPassProcessor.java:240-253 | a second active unit aborts with `IllegalStateException`; a completed file hands the table back with only the import map cleared; an aborted file leaves its unit entered |
| ThirdPass.AbortedExtractBlocksNextFile | polaris-core/src/main/java/com/codingstory/polaris/parser/ThirdPassProcessor.java:240-253 | after an aborted file the same table refuses the next file's compilation unit |
| ThirdPass.FreshTableSurvivesExtract | polaris-core/src/main/java/com/codingstory/polaris/parser/ThirdPassProcessor.java:240-253 | a fresh table comes back from a completed file exactly as it was |
| ThirdPass.VarDeclEmitsTypeUsageFirst | polaris-core/src/main/java/com/codingstory/polaris/parser/ThirdPassProcessor.java:144-162 | inside a unit a local variable's type always resolves, and its type usage comes before its initialisers' usages |
| ThirdPass.MethodCallEmitsUsage | polaris-core/src/main/java/com/codingstory/polaris/parser/ThirdPassProcessor.java:166-188 | a receiver that cannot be typed aborts the file; otherwise the call completes exactly when its arguments do, and its usages are those of its arguments, preceded by one usage of the fitting method exactly when one method fits |
| ThirdPass.NewObjEmitsUsage | polaris-core/src/main/java/com/codingstory/polaris/parser/ThirdPassProcessor.java:191-200 | a type that cannot be resolved aborts the file; otherwise the creation completes exactly when its arguments do, and its usages are those of its arguments, preceded by one usage of the class's fitting `<init>` exactly when one constructor fits |
| ThirdPass.UndiscoveredTypeAborts | polaris-core/src/main/java/com/codingstory/polaris/parser/ThirdPassProcessor.java:109-115 | a type declaration the registry does not hold at its location aborts with an assertion failure |
| ThirdPass.UndiscoveredMethodAborts | polaris-core/src/main/java/com/codingstory/polaris/parser/ThirdPassProcessor.java:121-128 | a method declaration at no known method's span aborts with an assertion failure |
| Scenarios.ImportedClassScenario | polaris-core/src/main/java/com/codingstory/polaris/parser/ThirdPassProcessor.java:63-253 | for a file that imports `q.Foo`, declares `Foo x = new Foo()` and calls `x.bar()`, the pass emits the type usage, the constructor usage and the call usage, in that order, and returns the table unchanged |
| Scenarios.OverloadsByArity | polaris-core/src/main/java/com/codingstory/polaris/parser/ThirdPassProcessor.java:219-233 | arity picks between overloads; two overloads of the same arity give no method |
| PageController.Parts | polaris-web/src/main/java/com/codingstory/polaris/web/client/PageController.java:39 | every part of a token is non-empty and free of `&`; the parts glued together are the token with its `&`s removed; there are none exactly when the token is all `&` |
| PageController.ParsePart | polaris-web/src/main/java/com/codingstory/polaris/web/client/PageController.java:40-47 | a part with an `=` splits at its first `=` into a key without `=` and the value; a part without one throws `StringIndexOutOfBoundsException` |
| PageController.ParseParts | polaris-web/src/main/java/com/codingstory/polaris/web/client/PageController.java:39-48 | the parts parse exactly when each contains an `=`, and then part by part |
| PageController.BuildMap | polaris-web/src/main/java/com/codingstory/polaris/web/client/PageController.java:38-49 | the map builds exactly when the keys are distinct; its keys are the keys given and each maps to its value; a repeated key throws |
| PageController.BuildParameters | polaris-web/src/main/java/com/codingstory/polaris/web/client/PageController.java:37-50 | a built map's keys contain neither `=` nor `&`, and its values contain no `&` |
| PageController.Dispatch | polaris-web/src/main/java/com/codingstory/polaris/web/client/PageController.java:27-34 | `p=search` opens the search page and `p=source` the source page, any other or no `p` the home page; the search page gets `q` and the source page `file`, each absent exactly when the parameter is |
| PageController.HandleHistoryToken | polaris-web/src/main/java/com/codingstory/polaris/web/client/PageController.java:25-35 | handling a token throws exactly when building its parameters throws, with the same exception, and otherwise shows the page its parameters select |
| PageController.SearchResultToken | polaris-web/src/main/java/com/codingstory/polaris/web/client/PageController.java:55-57 | the search token is the token of the two parameters `p=search` and `q=` the encoded query |
| PageController.ViewSourceToken | polaris-web/src/main/java/com/codingstory/polaris/web/client/PageController.java:59-61 | the source token is the token of the two parameters `p=source` and `file=` the encoded file name |
| PageController.PartIsParameter | polaris-web/src/main/java/com/codingstory/polaris/web/client/PageController.java:37-50 | every part of a token that builds appears in the map as its key and value |
| PageController.ParameterIsPart | polaris-web/src/main/java/com/codingstory/polaris/web/client/PageController.java:37-50 | every key in a built map comes from some part of the token |
| PageController.PartWithoutEqualsFails | polaris-web/src/main/java/com/codingstory/polaris/web/client/PageController.java:40-45 | any part without an `=` makes the whole token throw |
| PageController.RepeatedKeyFails | polaris-web/src/main/java/com/codingstory/polaris/web/client/PageController.java:46-49 | two parts with the same key make the whole token throw |
| PageController.PartsOfToken | polaris-web/src/main/java/com/codingstory/polaris/web/client/PageController.java:39 | a token written from `&`-free parameters splits back into exactly their parts |
| PageController.TokenRoundTrip | polaris-web/src/main/java/com/codingstory/polaris/web/client/PageController.java:37-50 | a token written from `&`-free parameters with `=`-free keys reads back as the map of those parameters, and builds exactly when the keys are distinct |
| PageController.SearchResultRoundTrip | polaris-web/src/main/java/com/codingstory/polaris/web/client/PageController.java:55-57 | the token for a search result reads back as `p=search` with the encoded query, and history handling opens the search page with that query |
| PageController.ViewSourceRoundTrip | polaris-web/src/main/java/com/codingstory/polaris/web/client/PageController.java:59-61 | the token for a source view reads back as `p=source` with the encoded file name, and history handling opens the source page with that file |
| PageController.DispatchSource | polaris-web/src/main/java/com/codingstory/polaris/web/client/PageController.java:30-31 | `p=source` opens the source page with the `file` parameter, present or not |
| PageController.AmpersandInQueryIsMisread | polaris-web/src/main/java/com/codingstory/polaris/web/client/PageController.java:55-57 | a query `a&b=c` whose `&` and `=` reach the token unencoded opens the search page for `a` alone |
| PageController.AmpersandInQueryThrows | polaris-web/src/main/java/com/codingstory/polaris/web/client/PageController.java:55-57 | a query `a&b` with no `=` after the `&` makes handling its own token throw |
| PageController.AmpersandInFileNameIsMisread | polaris-web/src/main/java/com/codingstory/polaris/web/client/PageController.java:59-61 | a file name `a&b=c` opens the source page for `a` alone |
| PageController.EncodeComponent | polaris-web/src/main/java/com/codingstory/polaris/web/client/PageController.java:56 | the escaped text contains neither `&` nor `=` |
| PageController.DecodeEncodeComponent | polaris-web/src/main/java/com/codingstory/polaris/web/client/PageController.java:56 | decoding undoes the escaping for every text |
| PageController.EscapedSearchResultRoundTrip | polaris-web/src/main/java/com/codingstory/polaris/web/client/PageController.java:55-57 | with `&`, `=` and `%` escaped, every query reaches the search page whole, and decodes back to itself |
| PageController.EscapedViewSourceRoundTrip | polaris-web/src/main/java/com/codingstory/polaris/web/client/PageController.java:59-61 | with `&`, `=` and `%` escaped, every file name reaches the source page whole, and decodes back to itself |
| PageController.EmptyTokenShowsHome | polaris-web/src/main/java/com/codingstory/polaris/web/client/PageController.java:25-35 | an empty token, or one of only `&`, opens the home page |
| Helper.DropPackageName | polaris-webui/src/main/webapp/js/polaris/helper.js:12-15 | the result has no dot; a name without a dot is kept whole, and a name with one is some package, a dot and the result |
| Helper.DropPackageNameOfQualified | polaris-webui/src/main/webapp/js/polaris/helper.js:12-15 | dropping the package of `package.Simple` gives `Simple` |
| Helper.DropPackageNameIdempotent | polaris-webui/src/main/webapp/js/polaris/helper.js:12-15 | dropping the package twice is dropping it once |
| Helper.DropPackageAndClassName | polaris-webui/src/main/webapp/js/polaris/helper.js:17-20 | the result has no `#`; a name without a `#` is kept whole, and a name with one is some owner, a `#` and the result |
| Helper.DropPackageAndClassNameOfMember | polaris-webui/src/main/webapp/js/polaris/helper.js:17-20 | dropping the owner of `Owner#member` gives `member` |
| Helper.Utf16 | polaris-webui/src/main/webapp/js/polaris/helper.js:22-28 | a JavaScript string is the UTF-16 encoding of the text: at least as many code units as characters, and as many line feeds as the text has line breaks |
| Helper.PrefixEnd | polaris-webui/src/main/webapp/js/polaris/helper.js:23-27 | the end of the counted prefix is the offset when the offset lies in the text, and never past the text |
| Helper.CodeOffsetToLineNum | polaris-webui/src/main/webapp/js/polaris/helper.js:22-28 | the line number is the number of line feeds among the UTF-16 code units before the (clamped) offset |
| Helper.LineNumBounds | polaris-webui/src/main/webapp/js/polaris/helper.js:22-28 | offset 0 is line 0, and no offset is past the number of newlines in the text |
| Helper.LineNumMonotone | polaris-webui/src/main/webapp/js/polaris/helper.js:22-28 | a later offset is never on an earlier line |
| Helper.LineNumStep | polaris-webui/src/main/webapp/js/polaris/helper.js:22-28 | moving one code unit forward moves one line down exactly when that unit is a line feed |
| Helper.LineNumClamped | polaris-webui/src/main/webapp/js/polaris/helper.js:23-26 | every offset at or past the end of the encoded text is on the last line, the number of line breaks in the text |
| Helper.LineNumOfBasicText | polaris-webui/src/main/webapp/js/polaris/helper.js:22-28 | for a text of Basic Multilingual Plane characters, offsets are character offsets and an offset's line is the number of line breaks among the characters before it |
| Helper.AstralCharacterTakesTwoOffsets | polaris-webui/src/main/webapp/js/polaris/helper.js:22-28 | a character outside the Basic Multilingual Plane takes two offsets, so a line break after it sits at offset 2 and offset 2 is still on line 0 |
| Helper.ConvertJumpTargetToUrlFragment | polaris-webui/src/main/webapp/js/polaris/helper.js:5-10 | the fragment is `#` followed by the token of `page=code`, the file id and the offset |
| Helper.FragmentReadsBack | polaris-webui/src/main/webapp/js/polaris/helper.js:5-10 | the fragment's token reads back as `page=code` with the file id and the offset, both of which parse back to the integers given |
| SearchBox.Init | polaris-web/public/javascripts/directives.js:15-20 | the box starts idle, visible, with nothing selected and no choices yet |
| SearchBox.InitInv | polaris-web/public/javascripts/directives.js:15-20 | the initial state satisfies the box's invariant |
| SearchBox.ChoicesFrom | polaris-web/public/javascripts/directives.js:32-40 | one choice per hit, in order, carrying its index, hint, project path and source link |
| SearchBox.Update | polaris-web/public/javascripts/directives.js:21-28 | a completion request goes out exactly when none is outstanding and the query is non-empty, and marks the box loading |
| SearchBox.Respond | polaris-web/public/javascripts/directives.js:29-46 | a response replaces the choices with one per hit, or none when there are no hits, clears loading, and moves a selection past the end to the first choice |
| SearchBox.Search | polaris-web/public/javascripts/directives.js:48-55 | Enter navigates to the highlighted choice's link when one is highlighted and visible, and otherwise to the search page for the query; it throws only with a selection and no choices |
| SearchBox.MoveUp | polaris-web/public/javascripts/directives.js:56-60 | up moves the selection one step up, stopping at -1, and changes nothing else |
| SearchBox.MoveDown | polaris-web/public/javascripts/directives.js:61-65 | down moves the selection one step down while a choice remains below it, and changes nothing else; before any response it throws |
| SearchBox.Blur | polaris-web/public/javascripts/directives.js:66-68 | blurring hides the choices and changes nothing else |
| SearchBox.Focus | polaris-web/public/javascripts/directives.js:69-71 | focusing shows the choices and changes nothing else |
| SearchBox.OnKeyDown | polaris-web/public/javascripts/directives.js:74-84 | key 38 moves up, key 40 moves down, key 13 searches, and any other key does nothing |
| SearchBox.Step | polaris-web/public/javascripts/directives.js:21-86 | only a key press throws; only a query change with no request outstanding asks for completions, and marks the box loading; only Enter navigates; only a response changes the choices; only a query change changes the query |
| SearchBox.Run | polaris-web/public/javascripts/directives.js:21-89 | a run of events without a response keeps the choices, and one without a query change keeps the query |
| SearchBox.ThrowingEventIsSkipped | polaris-web/public/javascripts/directives.js:74-84 | an event whose handler throws leaves no trace on the rest of the run |
| SearchBox.StepKeepsInv | polaris-web/public/javascripts/directives.js:15-89 | every event the box handles keeps the selection within -1 and the choice list |
| SearchBox.RunKeepsInv | polaris-web/public/javascripts/directives.js:15-89 | the invariant holds after any sequence of events, whether or not some of them throw |
| SearchBox.SearchNeverThrows | polaris-web/public/javascripts/directives.js:48-55 | in any reachable state, Enter never throws |
| SearchBox.OnlyEarlyDownArrowThrows | polaris-web/public/javascripts/directives.js:61-84 | in a reachable state, the only event that throws is the down arrow before the first response |
| SearchBox.OneOutstandingQuery | polaris-web/public/javascripts/directives.js:21-24 | once a request has gone out, any further query change is recorded and sends nothing |
| SearchBox.MoveDownThenUp | polaris-web/public/javascripts/directives.js:56-65 | up undoes a down that moved |
| SearchBox.MoveUpThenDown | polaris-web/public/javascripts/directives.js:56-65 | down undoes an up from a highlighted choice |
| SearchBox.ArrowsStayInList | polaris-web/public/javascripts/directives.js:56-65 | with choices present, the arrows keep the selection between -1 and the last choice |
| SearchBox.HighlightedChoiceIsHit | polaris-web/public/javascripts/directives.js:29-55 | after a response with a highlighted choice, Enter navigates to the source link of the corresponding hit |

## Left out

- The parser, the first two passes, the rest of the indexer and the search
  services are not part of this model. The syntax tree arrives as a `ThirdPass.Node`: only the constructs the third
  pass reacts to, with spans and type text already computed.
- `ThirdPassProcessor.snippetLine`, `nodeSpan`, `nodeJumpTarget` and
  `dropGenericTypes` are left out: a usage keeps its jump target, and the
  type text in a `VarDecl` already has its generic arguments removed. Usage
  snippets are not modelled.
- `SymbolTable.resolveType` and `resolvePrimitive` beyond
  `PrimitiveTypes.parse` are left out. The third pass uses the handle
  resolution only.
- The text of `TypeUtils`, `PrimitiveTypes`, Guava's `Splitter` and
  `ImmutableMap`, and Closure's `goog.string` is not part of this model.
  Their behaviour is assumed as stated at the top of this file.
- `ParserUtils.safeVisit` is not part of this model. The model assumes it
  lets the visitor's exceptions through to `extract`'s caller.
- Logging (`LOG`, `console.log`) is left out; it has no effect on the
  results.
- History listening, `History.newItem`, the GWT widgets and the three
  `doSwitchTo...` page switches are left out. `HandleHistoryToken` returns
  the page it would show.
- `URL.encode` is left out: the token builders take the already-encoded
  text. GWT's `URL.encode` leaves `&` and `=` as they are, so the round
  trips hold only for text without `&` and say so in their requirements
  (see Findings). `EncodeComponent` is an escaping of `&`, `=` and `%` only,
  standing in for a component encoder; it is not GWT's encoder.
- `Helper.DropPackageName` and `Helper.DropPackageAndClassName` work on
  characters rather than UTF-16 code units. A surrogate is never `.` or `#`,
  so the result is the same text.
- `PageController.ParsePart` keeps the source's `eq >= part.length()`
  branch although `indexOf` never returns such a value. A part without `=`
  makes `substring(0, -1)` throw, under Java semantics. Compiled to
  JavaScript by GWT the same call may not throw; that behaviour is not
  modelled.
- `Helper.FragmentReadsBack`: the fragment's keys (`page`, `file`, `offset`)
  are not the `p=` keys that `handleHistoryToken` dispatches on. The lemma
  states only what `buildParameters` reads from the fragment.
- `goog.string.format`'s `%d` applied to a non-integer is left out: file
  ids and offsets are integers.
- `SearchBox.Run`: a handler that throws is skipped with the state as it
  was. Every throw in the directive happens before its handler writes to
  the scope, but `$apply` is then not called; the missed digest is not
  modelled.
- `SearchBox`: the query is modelled as a string, so the `undefined` query
  before the first keystroke is left out. The `$watch` listener fires only
  when the query changes, and its initial call is not modelled.
- `SearchBox`: the remote `CodeSearch.complete` call becomes an effect
  (`Complete(query, 8)`) plus a later `Responded` event. `$location.url`
  becomes a `Navigate` effect. `$apply`, `preventDefault`, `scope.click`
  and the width of the choice box are left out.
- The `projectTree`, `zippy` and `codeView` directives and the other web
  modules are not part of this model.

## Findings

| source | as written | input that shows it | evidently intended | confidence | as-written member | corrected member |
|---|---|---|---|---|---|---|
| polaris-web/src/main/java/com/codingstory/polaris/web/client/PageController.java:56 | the query goes into the token through `URL.encode`, which leaves `&` and `=` unescaped | the query `a&b=c` opens the search page for `a`; the query `a&b` makes the token throw | every query comes back whole from its history token | not executed | PageController.AmpersandInQueryIsMisread | PageController.EscapedSearchResultRoundTrip |
| polaris-web/src/main/java/com/codingstory/polaris/web/client/PageController.java:60 | the file name goes into the token through `URL.encode`, which leaves `&` and `=` unescaped | the file name `a&b=c` opens the source page for `a` | every file name comes back whole from its history token | not executed | PageController.AmpersandInFileNameIsMisread | PageController.EscapedViewSourceRoundTrip |
