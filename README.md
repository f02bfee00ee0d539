# constlint analyzer, modelled in Dafny

constlint is a Go static analyzer that reports writes to data marked as
read-only by comments. It has two kinds of marker:

- A struct field whose doc comment or line comment contains `+const`
  becomes a const field. An assignment statement (`=` or an operator
  assignment) that writes it through its own struct type is reported,
  unless it sits in what the analyzer takes for a constructor of that type.
- A function whose doc comment has a line with `// +const:[a, b]` makes
  the listed names const parameters. An assignment statement to such a
  name inside a function of that name (in the same package) is reported.

Other statements that change a variable (`++`, `--`, `range`) are not
checked; the list below gives these and the other limits.

The analyzer (`analyzer/analyzer.go`) runs three passes over a package.

1. It builds a field table keyed by (type name object, field name).
2. It builds a parameter table keyed by (function name, parameter name,
   package path).
3. It checks every left-hand side of every assignment that is not a short
   variable declaration (`:=`).

To decide whether a field write is inside a constructor, it finds the
enclosing function declaration by a preorder walk over the files (`astPath`).
It then looks at the receiver, the name prefix (`New`, `Create`, `Init`,
`Make`) and the result types.

The model replaces the Go syntax tree and the type checker's answers with
small datatypes (`Syntax`). Node identity is an explicit `NodeId`. Type
identity is equality of type terms that carry opaque ids. Every step that
works by mutation in Go is a method with loops and is proved against a
specification function:

- the comment scans with `break`;
- the map writes;
- the in-place trimming of the parameter names, on an `array`;
- the `astPath` walk, with its `found` flag and its per-file reset;
- the backward search for a function declaration.

Lemmas then relate those specification functions to the markers in the
source text.

Modules, in dependency order:

- `Wrappers`: `Option`.
- `GoStrings`: `strings.Index`, `Contains`, `HasPrefix`, `Split` with a
  one-character separator, and `TrimSpace`.
- `Tables`: a Go map filled in order, so that the last write wins; entry
  lists concatenated node by node.
- `Syntax`: the abstract syntax and type information, and the preorder that
  `ast.Inspect` follows.
- `AstPath`: `astPath` and the enclosing function declaration.
- `Markers`: the first two passes of `run`.
- `Classify`: `isConstructorName`, `returnsOwnType` and `isInConstructor`.
- `Checks`: `checkAssignment`, `checkParamAssignment`, the assignment scan,
  `run`, and the properties of the whole analysis.

Behaviour follows the code, which differs from the project's own
description in these places:

- There is no exemption for fresh composite literals. So the writes in
  `analyzer/testdata/src/a/foreign_init.go:14-16` and
  `analyzer/testdata/src/a/params.go:23` are reported by this code,
  although those fixtures mark them as allowed: each writes into a
  `&Person{}` built in the same body, inside a method of another type or a
  plain function that does not return `Person`
  (`Classify.ConstructorExamples`).
- There is no bare `+const` form that marks all of a function's parameters.
- An identifier is reported as a const parameter without any check that it
  really is a parameter. A local variable with a listed name counts too
  (`Checks.ParamWriteReported`).
- `isInConstructor` compares the receiver type with the struct's underlying
  type (analyzer/analyzer.go:319). A receiver resolves to a named type, so
  for a struct that comparison never succeeds. A method is then a
  constructor only when it returns the type or a pointer to it, whatever its
  name (`Classify.NamedReceiverIgnoresName`, `Classify.ConstructorExamples`).
- Only assignment statements are checked (analyzer/analyzer.go:159-166).
  Increments and decrements (`p.Name++`, `name--`) and the variables of a
  `for ... = range` loop are never reported; in the model those statements
  are nodes of no checked kind (`Checks.CheckNode`).
- The field key uses the receiver type of the selection, which is the
  outer type (analyzer/analyzer.go:203 and 224-231). A write to a `+const`
  field promoted from an embedded struct, `outer.Name = x`, is looked up
  under the outer type and is never reported (`Checks.FieldReportSpec`).
- Any field comment that contains the text `+const` marks the field
  (analyzer/analyzer.go:80 and 90). So `+const:[a]`, `+constant` or
  `+constraint` on a field marks it too (`Markers.HasConstMarker`).
- A parameter key holds only the function's simple name, the parameter
  name and the package path (analyzer/analyzer.go:146 and 283). Methods
  with the same name on different receiver types share their lists: with
  `// +const:[x]` on `A.Set`, a write to `x` in `B.Set` is reported. The
  diagnostic carries the position of the last such declaration in
  traversal order (`Markers.ParamIndexLastWins`,
  `Checks.ParamDiagnosticJustified`).
- The list marker must be exactly `// +const:[` (analyzer/analyzer.go:124);
  `//+const:[a]` and `/* +const:[a] */` are ignored (`Markers.ParamListInSome`).
- The enclosing declaration is the last function declaration that precedes
  the node in the walk of its file (analyzer/analyzer.go:264-270), whether
  or not it contains the node. A write outside every function declaration,
  such as one in a function literal of a package-level `var`, is therefore
  attributed to the last function declared before it, whose name and
  signature then decide both checks (`AstPath.LastFuncDeclSpec`). Only
  when declarations enclose the node is it the containing one
  (`AstPath.EnclosingFuncDeclInFiles`).

## Model

| member | source | states |
|---|---|---|
| GoStrings.Index | analyzer/analyzer.go:124-127 | `strings.Index`: -1 exactly when the pattern does not occur; otherwise a match with no earlier match |
| GoStrings.Split | analyzer/analyzer.go:140 | `strings.Split` at a one-character separator always yields at least one piece, even for the empty string |
| GoStrings.SplitSpec | analyzer/analyzer.go:140 | no piece holds the separator, and joining the pieces with it gives the string back |
| GoStrings.SplitJoin | analyzer/analyzer.go:140 | splitting the join of separator-free pieces gives exactly those pieces |
| GoStrings.TrimSpace | analyzer/analyzer.go:142 | the trimmed string is no longer than the input, and neither begins nor ends with white space |
| GoStrings.TrimSpaceIsInfix | analyzer/analyzer.go:142 | the trimmed string is a contiguous part of the input, and everything cut off on either side is white space |
| GoStrings.TrimSpaceIdempotent | analyzer/analyzer.go:141-143 | trimming a trimmed name changes nothing |
| Tables.ToMapHasWritten | analyzer/analyzer.go:99-102 | every key written to the map is in it afterwards |
| Tables.ToMapLastWins | analyzer/analyzer.go:151-155 | for a key written more than once, the last write decides the value |
| Tables.ToMapValueWritten | analyzer/analyzer.go:99-102 | every value in the table was written for its key |
| Syntax.Lhs | analyzer/analyzer.go:175 | the left-hand sides of an assignment are its leading children, in order |
| Syntax.Preorder | analyzer/analyzer.go:370-384 | the order in which `ast.Inspect` visits a tree: the node first, then its children's trees in order; the walk starts at the root |
| AstPath.BeforeIsPrefixToTarget | analyzer/analyzer.go:370-384 | the recorded path is a prefix of the preorder that does not contain the target; it is shorter than the preorder exactly when the target occurs, and the target is then the next node |
| AstPath.Inspect | analyzer/analyzer.go:370-384 | the walk of one file reports whether the target occurs and appends exactly the nodes visited before it |
| AstPath.PathToFirstFile | analyzer/analyzer.go:369-388 | the path comes from the first file that contains the target; when no file contains it there is no path |
| AstPath.AstPathOf | analyzer/analyzer.go:366-391 | `astPath`: found exactly when some file contains the target; the path is the preorder prefix before the target in the first such file, and empty otherwise |
| AstPath.LastFuncDeclSpec | analyzer/analyzer.go:264-270 | absent exactly when the path holds no function declaration; otherwise it is one in the path with none after it |
| AstPath.LastFuncDeclAt | analyzer/analyzer.go:264-270 | a function declaration in the path with none after it is the one found |
| AstPath.LastFuncDeclNone | analyzer/analyzer.go:264-270 | a path without function declarations yields none |
| AstPath.FindLastFuncDecl | analyzer/analyzer.go:264-270 | the backward search with `break` finds the last function declaration of the path |
| AstPath.FindEnclosingFuncDecl | analyzer/analyzer.go:257-270 | `astPath` followed by the backward search yields the enclosing declaration |
| AstPath.EnclosingIsContainingFuncDecl | analyzer/analyzer.go:257-270 | if node ids are unique and declarations do not nest, the declaration found is the one whose subtree contains the target |
| AstPath.EnclosingFuncDeclInFiles | analyzer/analyzer.go:257-270 | the same across files: the target's first file decides, and the declaration found is the one that contains the target |
| Markers.HasConstMarker | analyzer/analyzer.go:76-95 | the doc-then-line-comment scan with `break` finds a marker exactly when the field is marked: either comment group has a line containing the text `+const` anywhere |
| Markers.StructEntriesSpec | analyzer/analyzer.go:71-104 | a struct yields an entry for a (type, name, position) exactly when some marked field has that name at that position |
| Markers.FieldIndexSpec | analyzer/analyzer.go:43-106 | a (type, field) key is in the field table exactly when some struct type spec marks that field of that type; its value is the position of one of the marking names |
| Markers.RecordNames | analyzer/analyzer.go:97-104 | every name of a marked field is written to the table at its own position |
| Markers.RecordField | analyzer/analyzer.go:72-104 | a field without comments, or whose comments hold no marker, adds nothing; a marked field adds an entry for each of its names |
| Markers.RecordStruct | analyzer/analyzer.go:71-105 | the field loop, including the skip of fields without comments, writes the struct's entries in order |
| Markers.BuildFieldIndex | analyzer/analyzer.go:43-106 | the first pass builds exactly the field table |
| Markers.ParamListInSome | analyzer/analyzer.go:123-132 | a comment line yields a list exactly when it has a `// +const:[` marker followed somewhere later by `]` |
| Markers.ParamListInShape | analyzer/analyzer.go:124-129 | the list holds no `]`; it stands right after the line's first marker and is closed by `]` |
| Markers.FirstParamListAt | analyzer/analyzer.go:121-133 | the first line that yields a list decides, even when that list is empty; lines without a closing `]` are skipped; with no such line the list is empty |
| Markers.ParamListOf | analyzer/analyzer.go:124-131 | one comment line's scan finds a list exactly when the line yields one, and returns that list |
| Markers.FindParamList | analyzer/analyzer.go:121-133 | the doc-comment scan with `break` returns the list of the first line that yields one, or the empty string |
| Markers.ParamNamesOfPieces | analyzer/analyzer.go:139-143 | a list written as comma-free pieces gives exactly those pieces, each trimmed |
| Markers.ParamNamesShape | analyzer/analyzer.go:139-143 | every recorded name is free of commas and of surrounding white space |
| Markers.TrimInPlace | analyzer/analyzer.go:141-143 | every array slot is replaced by its trimmed form |
| Markers.SplitParamList | analyzer/analyzer.go:139-143 | the split list, trimmed in place in a fresh array, holds exactly the list's trimmed pieces |
| Markers.NodeParamEntriesSpec | analyzer/analyzer.go:114-156 | a node yields a (function, name, package) entry exactly when it is a function declaration with a doc comment whose non-empty list has that name as a trimmed piece |
| Markers.ParamIndexSpec | analyzer/analyzer.go:108-157 | a key is in the parameter table exactly when some function declaration lists it; its value is the position of such a declaration |
| Markers.ParamIndexLastWins | analyzer/analyzer.go:145-156 | when a declaration lists a key and no later declaration in traversal order lists it, the table holds that declaration's position: of same-named declarations listing the same name, the last one wins |
| Markers.RecordParams | analyzer/analyzer.go:149-156 | each listed name is written at the function's position |
| Markers.RecordFunc | analyzer/analyzer.go:115-156 | a declaration without a doc comment, or with an empty list, adds nothing; otherwise its split and trimmed names are added |
| Markers.BuildParamIndex | analyzer/analyzer.go:108-157 | the second pass builds exactly the parameter table |
| Classify.IsConstructorName | analyzer/analyzer.go:330-338 | true exactly when the name has one of the case-sensitive prefixes `New`, `Create`, `Init`, `Make` |
| Classify.ConstructorNameExamples | analyzer/analyzer.go:330-338 | `NewConfig`, `Newton` and `Init` count; `newConfig`, `SetName` and the empty name do not |
| Classify.FirstLetterDecides | analyzer/analyzer.go:331-336 | a name whose first letter is none of `N`, `C`, `I`, `M` is no constructor name |
| Classify.ReturnsOwnShape | analyzer/analyzer.go:341-363 | the type counts as returned exactly when some result is `T` or `*T`; a declaration without results never returns it |
| Classify.ReturnsOwnType | analyzer/analyzer.go:341-363 | the result loop, skipping unresolved results, returns true exactly when some resolved result is `T` after removing at most one pointer |
| Classify.InConstructorSpec | analyzer/analyzer.go:291-327 | not in a constructor when there is no enclosing declaration, nor when the single receiver's type did not resolve. Returning `T`/`*T` makes it a constructor unless the single receiver is unresolved. Being a constructor requires returning the type, or a receiver equal to the underlying type together with a constructor name |
| Classify.NamedReceiverIgnoresName | analyzer/analyzer.go:307-322 | for a method whose receiver is (a pointer to) a named type and a struct type, being a constructor is exactly returning the type |
| Classify.FreeFunctionConstructor | analyzer/analyzer.go:324-326 | a function without receiver is a constructor exactly when it returns the type |
| Classify.ConstructorExamples | analyzer/analyzer.go:291-363 | `NewDefaults` on `*Config` with no results is not a constructor. `NewConfig` returning `*Config` is one; returning `**Config` it is not. A method of another type is not a constructor of `Person` |
| Classify.IsInConstructor | analyzer/analyzer.go:291-327 | the method computes the constructor decision for the enclosing declaration that `astPath` finds |
| Checks.ReceiverNamed | analyzer/analyzer.go:207-220 | a named type is found exactly for a receiver that is a named type or one pointer to one, and it is that named type |
| Checks.FieldReportSpec | analyzer/analyzer.go:184-240 | a field write is reported exactly when the left-hand side is a field selection on `T` or `*T`, the (T, field) key is in the table, and the write is not in a constructor. The report carries the position, the type and field names, and the recorded marker position |
| Checks.CheckFieldAssignment | analyzer/analyzer.go:184-245 | `checkAssignment` returns the field report of the left-hand side |
| Checks.ParamReportSpec | analyzer/analyzer.go:248-288 | a parameter write is reported exactly when the left-hand side is an identifier with a positioned object inside some function declaration, and the (function, name, package) key is in the table. The report carries the recorded position |
| Checks.CheckParamAssignment | analyzer/analyzer.go:248-288 | `checkParamAssignment` returns the parameter report of the left-hand side |
| Checks.LhsAtMostOne | analyzer/analyzer.go:175-178 | one left-hand side draws at most one diagnostic. A field diagnostic comes only from a selector and a parameter diagnostic only from an identifier, each at that node's position |
| Checks.CheckAssign | analyzer/analyzer.go:175-178 | both checks run on every left-hand side, in order |
| Checks.CheckNode | analyzer/analyzer.go:163-179 | `:=` statements and nodes that are not assignments yield nothing |
| Checks.ScanAssignments | analyzer/analyzer.go:159-179 | the third pass yields the diagnostics of all nodes in traversal order |
| Checks.Run | analyzer/analyzer.go:37-182 | `run` yields exactly the analysis of the package |
| Checks.ScanSound | analyzer/analyzer.go:163-179 | every diagnostic of the third pass is drawn by some left-hand side of some `=` or operator assignment among the nodes |
| Checks.ScanComplete | analyzer/analyzer.go:163-179 | whatever a left-hand side of such an assignment draws is reported by the third pass |
| Checks.FieldReportWitness | analyzer/analyzer.go:184-240 | a field report names a selection on a named type whose key is in the table, outside a constructor, with the recorded position |
| Checks.ParamReportWitness | analyzer/analyzer.go:248-288 | a parameter report names an identifier inside a declaration whose key is in the table, with the recorded position |
| Checks.FieldWriteReported | analyzer/analyzer.go:184-240 | a write to a field marked in the package, through `T` or `*T`, outside a constructor, is reported with that field's recorded position |
| Checks.FieldDiagnosticJustified | analyzer/analyzer.go:184-240 | every field diagnostic comes from such a write to a field that a struct type spec of the package marks, for that very type object, at the reported position |
| Checks.ParamWriteReported | analyzer/analyzer.go:248-288 | a write to a resolved identifier whose name is listed by some declaration with the enclosing declaration's name is reported with the recorded position, whether or not the identifier is a parameter |
| Checks.ParamDiagnosticJustified | analyzer/analyzer.go:248-288 | every parameter diagnostic comes from a write to an identifier inside some declaration; a declaration of the package with that declaration's name lists the identifier's name and is declared at the reported position (it may be another method of the same name) |

## Left out

- The go/analysis plumbing (analyzer/analyzer.go:17-22 and 38) is not modelled. This covers the `Analyzer` value, the `inspect` pass and `Inspector.Preorder`. The inspector is modelled as the preorder of the package's files, which is the order `ast.Inspect` visits them.
- The type checker (`pass.TypesInfo`) is not modelled; its answers are inputs attached to the nodes. These are `Defs` for a type spec, `Selections` for a selector, `TypeOf` for receivers and results, and `ObjectOf` for identifiers. Type and node identities are opaque ids, and the model does not check that they are consistent with one another.
- Diagnostics: `pass.Reportf` is modelled as a record appended to a list. It holds the write's position, the names involved and the marker's `token.Pos`. The message text and the `Fset.Position` formatting are not modelled.
- Strings: Go strings are UTF-8 byte strings, while the model works on characters. The analyzer only cuts strings at the ASCII text `// +const:[`, `]` and `,`, so the results agree.
- Markers.FieldIndexSpec: it says that the stored position belongs to some marking name, not which one. Which one wins is stated separately by `Tables.ToMapLastWins` over the entry list in traversal order.
- `plugin/plugin.go`, `cmd/constlint/main.go` and `analyzer/analyzer_test.go` are not part of this model. They are wrappers for golangci-lint, `singlechecker` and `analysistest`.
- The fixtures under `analyzer/testdata/src/a/` are not modelled. Two of them expect silence where this code reports; see above.
