# KuiLang symbol-tree builder, modelled in Dafny

KuiLang's compiler builds a symbol graph in one pass over the syntax tree. Its
`SymbolTreeBuilder` walks the tree. It keeps a `_current` cursor on the
innermost symbol under construction. For every definition, statement and
expression it creates one symbol. Most symbols are owned by the cursor. Two
are not:
- a type is owned by the cursor's parent, which must be the root;
- a method declared in the top-level block is owned by the root, not by the
  block.
Methods, parameters, types and fields are registered in their owner's
dictionaries. A
`FieldSingleStatement` diagnostic is emitted for a local variable that is the
whole body of an `if`. The pass returns the program root.

This project models that pass and the two symbol classes shipped with it:
`TypeSymbol` and `MethodCallExpressionSymbol`.

- **The graph** is an arena, a `seq<Symbol>`. Every symbol refers to its
  parent and children by index.
  - Index 0 is the program root; index 1 is the built-in `number` type.
  - Every other symbol is owned by an earlier one (`SymbolGraph.WellFormed`).
- **A thrown .NET exception** (a failed cast, a null dereference, a duplicate
  dictionary key, the "Unknown method parent" error) is a `Throw` result. It
  aborts the pass.
- **`SymbolTree`** gives each visit as a pure function of the builder's state:
  the arena, the cursor and the diagnostics so far. Their contracts state:
  - one symbol per syntax node;
  - earlier symbols only *evolve* (dictionaries grow; nothing else changes);
  - where the cursor ends up;
  - exactly which diagnostics are emitted (`Emitted`, read off the syntax tree);
  - under which conditions each exception is thrown.
- **`Builder.SymbolTreeBuilder`** is the class as the source has it. It has
  the arena, the `current` cursor and the channel as fields, and methods that
  overwrite and restore the cursor the way the C# does. Each visit method is
  proved to compute its counterpart in `SymbolTree`, exception included:
  - most counterparts share the method's name;
  - `Visit` computes `VisitProgram`;
  - `AddMethodTo` computes `RegisterMethod`;
  - the helpers `New` and `Store` compute `Alloc` and `Put`.
- **`SymbolTreeProperties`** states what each visit builds, and what whole
  passes do:
  - arguments, statements, parameters and fields come out in source order;
  - the children of a nested block, of an `if` and of a method (unless its
    body is itself a type) are owned by it; in the top-level block and in a
    type, the same holds only until a method or a type is declared there
    (see below);
  - an operator drops its left operand;
  - which programs abort, and which are reported.

Behaviour of the code as written, which the model keeps and proves:

* After a method declared in the top-level block, the cursor is the method's
  parent: the root, not the block. After a type it is also the root. The
  root has no parent, so a second top-level type, or a type after a
  top-level method, dereferences null (`SecondTopLevelTypeThrows`,
  `TypeAfterTopLevelMethodThrows`).
* A type declared among the members of a type is registered in the root.
  The cursor is then left on the root, so the members after it are built
  under the root: a field declared after it becomes a local variable owned
  by the root, not a field of the enclosing type (`NestedTypeScenario`).
* `Visit(Operator)` visits the left operand under the outer cursor and
  discards its symbol. The call symbol's only argument is the right operand.
* A user type named `number` collides with the built-in type and throws a
  duplicate key.
* Fields of a type are never reported. Only a local variable that is the
  whole body of an `if` is.

`EndToEnd` applies the pass to one small program, symbolically, for any condition:

    type Point {
      number x; number y;
      number length(number unit) { if (condition) number temp; return 0; }
    }

It proves the pass succeeds, where each symbol lands and which diagnostic is
emitted.

`NestedTypeEndToEnd` does the same for a type declared among the members of
another, `type Outer { <f1> type Inner { } <f3> }`. It proves that `f3` ends
up as a variable owned by the root.

## Model

| member | source | states |
|---|---|---|
| Collections.DictionaryAdd | KuiLang/Compiler/SymbolTreeBuilder.cs:46 | `Dictionary.Add` fails exactly on an existing key; otherwise the key maps to the value and every old entry is unchanged |
| Collections.OrderedAdd | KuiLang/Compiler/Symbols/TypeSymbol.cs:30 | `OrderedDictionary.Add` fails exactly on an existing key; otherwise the key is appended to the order and unique keys stay unique |
| Collections.EmptyOrdered | KuiLang/Compiler/Symbols/TypeSymbol.cs:30 | a new ordered dictionary has no keys and is valid |
| TypeSymbols.NewTypeSymbol | KuiLang/Compiler/Symbols/TypeSymbol.cs:14-19 | the constructor sets parent, syntax node and name (the syntax node's name); dictionaries empty, constructor slot null |
| TypeSymbols.IdentifierOf | KuiLang/Compiler/Symbols/TypeSymbol.cs:34 | the `Identifier` property is built from `Name` and carries it |
| TypeSymbols.IdentifierFollowsName | KuiLang/Compiler/Symbols/TypeSymbol.cs:34 | two types expose equal identifiers exactly when their names are equal |
| TypeSymbols.AddField | KuiLang/Compiler/Symbols/TypeSymbol.cs:30 | `Fields.Add` fails exactly on an existing field name; otherwise the name is appended, identity and methods kept, validity preserved |
| TypeSymbols.AddMethod | KuiLang/Compiler/Symbols/TypeSymbol.cs:28 | `Methods.Add` fails exactly on an existing method name; otherwise the entry is added, identity and fields kept |
| TypeSymbols.FieldsKeepInsertionOrder | KuiLang/Compiler/Symbols/TypeSymbol.cs:30 | after an add the new name is last, the earlier keys are an unchanged prefix, and the name occurs nowhere before |
| MethodCallExpressionSymbols.NewMethodCallExpressionSymbol | KuiLang/Compiler/Symbols/MethodCallExpressionSymbol.cs:13-17 | the constructor sets parent and syntax node; arguments, target method and call target are null |
| MethodCallExpressionSymbols.SetArguments | KuiLang/Compiler/Symbols/MethodCallExpressionSymbol.cs:21 | the internal setter fills the arguments and changes nothing else; parent and syntax node are fixed |
| MethodCallExpressionSymbols.SetTargetMethod | KuiLang/Compiler/Symbols/MethodCallExpressionSymbol.cs:24 | the internal setter fills the target method and changes nothing else |
| MethodCallExpressionSymbols.SetCallTarget | KuiLang/Compiler/Symbols/MethodCallExpressionSymbol.cs:25 | the internal setter fills the call target and changes nothing else |
| SymbolGraph.ReturnType | KuiLang/Compiler/Symbols/MethodCallExpressionSymbol.cs:23 | `ReturnType` throws a null dereference exactly when there is no target method, and is otherwise the target's return type |
| SymbolGraph.ReturnTypeFollowsTarget | KuiLang/Compiler/Symbols/MethodCallExpressionSymbol.cs:23-24 | a fresh call symbol has no return type to read; after `SetTargetMethod` it is the method's current return type, following a later change to it |
| SymbolGraph.ScopeChain | KuiLang/Compiler/SymbolTreeBuilder.cs:27-28 | from any symbol but the built-in type, following parents reaches the root through strictly smaller indices |
| SymbolGraph.EvolvesKeepsShape | KuiLang/Compiler/Symbols/TypeSymbol.cs:21-32 | once built, a symbol keeps its parent, kind and get-only properties, and its dictionaries only grow (ordered fields at their end) |
| SymbolTree.VisitExpression | KuiLang/Compiler/SymbolTreeBuilder.cs:163 | an expression builds one symbol per syntax node, first its own under the cursor; it leaves cursor, diagnostics and earlier symbols unchanged; the result is an identifier symbol exactly for an identifier |
| SymbolTree.VisitIdentifierValue | KuiLang/Compiler/SymbolTreeBuilder.cs:175-176 | one identifier symbol under the cursor, carrying the name |
| SymbolTree.VisitNumber | KuiLang/Compiler/SymbolTreeBuilder.cs:179 | one number-literal symbol under the cursor, carrying the value |
| SymbolTree.VisitFuncCall | KuiLang/Compiler/SymbolTreeBuilder.cs:165-173 | the call symbol under the cursor, with exactly one argument symbol per syntax argument, each owned by the call, placed in source order |
| SymbolTree.VisitArguments | KuiLang/Compiler/SymbolTreeBuilder.cs:170 | `Select(Visit)`: one symbol per argument in order, each starting after the earlier arguments' symbols, all under the cursor, nothing earlier changed |
| SymbolTree.VisitOperator | KuiLang/Compiler/SymbolTreeBuilder.cs:182-194 | a function-call symbol under the outer cursor, followed by the operands' symbols; cursor and earlier symbols unchanged |
| SymbolTree.VisitOptional | KuiLang/Compiler/SymbolTreeBuilder.cs:81 | `e != null ? Visit(e) : null`: null exactly when there is no expression; otherwise the expression is built under the cursor |
| SymbolTree.MethodOwner | KuiLang/Compiler/SymbolTreeBuilder.cs:39-44 | the owner is the cursor when it holds methods, the root when the cursor is a block directly under the root, and otherwise the "Unknown method parent" error |
| SymbolTree.RegisterMethod | KuiLang/Compiler/SymbolTreeBuilder.cs:46 | `Methods.Add` on the owner: duplicate key exactly when the name is taken; on success only the owner's methods change, gaining the entry |
| SymbolTree.RegisterType | KuiLang/Compiler/SymbolTreeBuilder.cs:67 | `root.Add(type)`: duplicate key exactly when the name is taken; on success only the root's types change, gaining the entry |
| SymbolTree.VisitParameter | KuiLang/Compiler/SymbolTreeBuilder.cs:53-61 | invalid cast unless the cursor is a method; duplicate key exactly on a repeated parameter name; otherwise one parameter symbol, registered under its name, nothing else changed |
| SymbolTree.VisitParameters | KuiLang/Compiler/SymbolTreeBuilder.cs:48 | invalid cast for a non-empty list unless the cursor is a method; otherwise the `i`-th parameter's symbol sits right after the earlier ones, is owned by the method and is registered under its name; the method's parameter names grow by exactly the listed names; nothing else changes |
| SymbolTree.ParametersPlacedExtends | KuiLang/Compiler/SymbolTreeBuilder.cs:53-60 | placed parameters stay placed, and stay registered, while later symbols are built |
| SymbolTree.VisitStatement | KuiLang/Compiler/SymbolTreeBuilder.cs:108-111 | every successful statement visit builds one symbol per syntax node, lets earlier symbols only evolve, emits exactly `Emitted`, and leaves the cursor at the root after a type, at the owner after a method, and unchanged otherwise |
| SymbolTree.VisitStatements | KuiLang/Compiler/SymbolTreeBuilder.cs:103 | the statements in order; the size adds up; the cursor ends where it started or at the root; outside an `if` body the diagnostics are the concatenation for the list; when the cursor ends where it started, every statement's symbol is owned by it, in source order |
| SymbolTree.StatementsVisitedStep | KuiLang/Compiler/SymbolTreeBuilder.cs:103 | a visited statement followed by a visited rest of the list is a visited list: sizes, diagnostics, fields and owners compose |
| SymbolTree.FirstStatementOwned | KuiLang/Compiler/SymbolTreeBuilder.cs:101-104 | the first statement of a list, unless it declares a method or a type, is owned by the cursor the list is visited under |
| SymbolTree.DeclareMethod | KuiLang/Compiler/SymbolTreeBuilder.cs:45-48 | duplicate key on a taken name; otherwise the method symbol (owned by the owner, no return type yet) is registered under its name and becomes the cursor, its parameter names are exactly the declared ones, and each parameter's symbol sits in order right after it, owned by it and registered under its name |
| SymbolTree.VisitMethod | KuiLang/Compiler/SymbolTreeBuilder.cs:37-51 | the "Unknown method parent" error when no owner applies, duplicate key on a taken name, and otherwise a visited statement whose cursor ends on the owner |
| SymbolTree.DeclareType | KuiLang/Compiler/SymbolTreeBuilder.cs:65-68 | duplicate key exactly when the root already has the name; otherwise a new type symbol owned by the root, registered under its name, becomes the cursor |
| SymbolTree.VisitType | KuiLang/Compiler/SymbolTreeBuilder.cs:63-72 | null dereference when the cursor has no parent, invalid cast when the parent is not the root, duplicate key on a taken name; otherwise a visited statement ending on the root |
| SymbolTree.VisitField | KuiLang/Compiler/SymbolTreeBuilder.cs:74-95 | throws exactly when the cursor is a type that already has the field name, and then a duplicate key |
| SymbolTree.DeclareField | KuiLang/Compiler/SymbolTreeBuilder.cs:78-80 | duplicate key exactly on a taken field name; otherwise a field symbol under the type becomes the cursor, the type gains the field at the end of its order, nothing else changes |
| SymbolTree.VisitTypeField | KuiLang/Compiler/SymbolTreeBuilder.cs:76-84 | under a type: duplicate key exactly on a taken field name; otherwise a visited statement |
| SymbolTree.VisitVariable | KuiLang/Compiler/SymbolTreeBuilder.cs:85-94 | outside a type a variable never throws, and is a visited statement, with the single-statement diagnostic exactly under an `if` |
| SymbolTree.VisitBlock | KuiLang/Compiler/SymbolTreeBuilder.cs:99-106 | the block and its statements form a visited statement; the cursor is restored to the block's parent |
| SymbolTree.VisitFieldAssignation | KuiLang/Compiler/SymbolTreeBuilder.cs:114-128 | succeeds exactly when the cursor is a statement symbol and the selector is an identifier, and otherwise throws an invalid cast |
| SymbolTree.IfHeader | KuiLang/Compiler/SymbolTreeBuilder.cs:132-135 | the if symbol under the cursor becomes the cursor, with its condition slot holding the condition's symbol, built right after it and owned by it |
| SymbolTree.VisitIf | KuiLang/Compiler/SymbolTreeBuilder.cs:130-139 | invalid cast unless the cursor is a statement symbol; otherwise a visited statement with the cursor restored (the body's owner is in `IfBuilt`) |
| SymbolTree.VisitReturn | KuiLang/Compiler/SymbolTreeBuilder.cs:141-149 | a return statement never throws and is a visited statement |
| SymbolTree.VisitMethodCallStatement | KuiLang/Compiler/SymbolTreeBuilder.cs:151-159 | a call statement never throws and is a visited statement |
| SymbolTree.InitialState | KuiLang/Compiler/SymbolTreeBuilder.cs:27-29 | a fresh root as the cursor, with the built-in number type registered as its only type |
| SymbolTree.VisitProgram | KuiLang/Compiler/SymbolTreeBuilder.cs:25-33 | a successful pass gives a well-formed graph with one symbol per syntax node plus root, built-in type and top-level block; `number` still registered; the channel gets exactly `Emitted` for the program |
| Builder.SymbolTreeBuilder.constructor | KuiLang/Compiler/SymbolTreeBuilder.cs:18-21 | the builder starts with the channel, no symbols and a null cursor |
| Builder.SymbolTreeBuilder.Visit | KuiLang/Compiler/SymbolTreeBuilder.cs:25-33 | throws what `VisitProgram` throws; otherwise returns the root, clears the cursor and holds exactly `VisitProgram`'s graph and diagnostics |
| Builder.SymbolTreeBuilder.VisitMethod | KuiLang/Compiler/SymbolTreeBuilder.cs:37-51 | computes `SymbolTree.VisitMethod`: the same exception, or the same new state |
| Builder.SymbolTreeBuilder.AddMethodTo | KuiLang/Compiler/SymbolTreeBuilder.cs:46 | computes `SymbolTree.RegisterMethod` |
| Builder.SymbolTreeBuilder.VisitParameter | KuiLang/Compiler/SymbolTreeBuilder.cs:53-61 | computes `SymbolTree.VisitParameter` |
| Builder.SymbolTreeBuilder.VisitParameters | KuiLang/Compiler/SymbolTreeBuilder.cs:48 | computes `SymbolTree.VisitParameters`, one parameter per loop iteration |
| Builder.SymbolTreeBuilder.VisitType | KuiLang/Compiler/SymbolTreeBuilder.cs:63-72 | computes `SymbolTree.VisitType` |
| Builder.SymbolTreeBuilder.VisitField | KuiLang/Compiler/SymbolTreeBuilder.cs:74-95 | computes `SymbolTree.VisitField`, both branches |
| Builder.SymbolTreeBuilder.VisitStatement | KuiLang/Compiler/SymbolTreeBuilder.cs:108-111 | computes `SymbolTree.VisitStatement` |
| Builder.SymbolTreeBuilder.VisitStatements | KuiLang/Compiler/SymbolTreeBuilder.cs:103 | computes `SymbolTree.VisitStatements`, stopping at the first exception |
| Builder.SymbolTreeBuilder.VisitBlock | KuiLang/Compiler/SymbolTreeBuilder.cs:99-106 | computes `SymbolTree.VisitBlock` |
| Builder.SymbolTreeBuilder.VisitFieldAssignation | KuiLang/Compiler/SymbolTreeBuilder.cs:114-128 | computes `SymbolTree.VisitFieldAssignation` |
| Builder.SymbolTreeBuilder.VisitIf | KuiLang/Compiler/SymbolTreeBuilder.cs:130-139 | computes `SymbolTree.VisitIf` |
| Builder.SymbolTreeBuilder.VisitReturn | KuiLang/Compiler/SymbolTreeBuilder.cs:141-149 | computes `SymbolTree.VisitReturn` |
| Builder.SymbolTreeBuilder.VisitMethodCallStatement | KuiLang/Compiler/SymbolTreeBuilder.cs:151-159 | computes `SymbolTree.VisitMethodCallStatement` |
| Builder.SymbolTreeBuilder.VisitExpression | KuiLang/Compiler/SymbolTreeBuilder.cs:163 | computes `SymbolTree.VisitExpression`: the same state and the same symbol |
| Builder.SymbolTreeBuilder.VisitOptional | KuiLang/Compiler/SymbolTreeBuilder.cs:81 | computes `SymbolTree.VisitOptional` |
| Builder.SymbolTreeBuilder.VisitFuncCall | KuiLang/Compiler/SymbolTreeBuilder.cs:165-173 | computes `SymbolTree.VisitFuncCall` |
| Builder.SymbolTreeBuilder.VisitArguments | KuiLang/Compiler/SymbolTreeBuilder.cs:170 | computes `SymbolTree.VisitArguments`, one argument per loop iteration |
| Builder.SymbolTreeBuilder.VisitIdentifierValue | KuiLang/Compiler/SymbolTreeBuilder.cs:175-176 | computes `SymbolTree.VisitIdentifierValue` |
| Builder.SymbolTreeBuilder.VisitNumber | KuiLang/Compiler/SymbolTreeBuilder.cs:179 | computes `SymbolTree.VisitNumber` |
| Builder.SymbolTreeBuilder.VisitOperator | KuiLang/Compiler/SymbolTreeBuilder.cs:182-194 | computes `SymbolTree.VisitOperator` |
| SymbolTreeProperties.FuncCallArgumentsInSourceOrder | KuiLang/Compiler/SymbolTreeBuilder.cs:165-173 | as many argument symbols as arguments, each after the call symbol and owned by it, with strictly increasing indices in source order |
| SymbolTreeProperties.OperatorDropsLeftOperand | KuiLang/Compiler/SymbolTreeBuilder.cs:184-191 | the call's only argument is the right operand's symbol, owned by the call; the left operand's symbol is a different one, owned by the outer cursor |
| SymbolTreeProperties.ParametersSucceed | KuiLang/Compiler/SymbolTreeBuilder.cs:53-61 | visiting a parameter list succeeds exactly when it is empty, or the cursor is a method, no two parameters share a name and none is already registered in the method |
| SymbolTreeProperties.DeclareMethodSucceeds | KuiLang/Compiler/SymbolTreeBuilder.cs:45-58 | declaring a method and its parameters succeeds exactly when the owner has no method of that name and no two parameters share a name |
| SymbolTreeProperties.DeclarationOutOfPlaceThrows | KuiLang/Compiler/SymbolTreeBuilder.cs:39-65 | a method throws where no owner applies; a type throws where the cursor's parent is not the root |
| SymbolTreeProperties.MethodBuilt | KuiLang/Compiler/SymbolTreeBuilder.cs:37-51 | the owner is the one `MethodOwner` selects, did not have the name, and ends up mapping it to the new method symbol, which it owns and which has the declared syntax node; the cursor ends on the owner |
| SymbolTreeProperties.BodyUnderMethod | KuiLang/Compiler/SymbolTreeBuilder.cs:45-60 | a statement visited with a method as cursor, as a method body is, is never a method, and unless it is a type its symbol is owned by the method |
| SymbolTreeProperties.TypeBuilt | KuiLang/Compiler/SymbolTreeBuilder.cs:63-72 | the cursor's parent was the root, which did not have the name and ends up mapping it to the new type, owned by the root with its syntax node, name and an unset constructor; when no member is a type, every member is owned by the type in source order and the type's fields are exactly its field members, in declaration order, with unique keys |
| SymbolTreeProperties.TypeFieldBuilt | KuiLang/Compiler/SymbolTreeBuilder.cs:76-84 | the type gains the field at the end of its order and nothing else; no other symbol changes; the field symbol is owned by the type |
| SymbolTreeProperties.VariableBuilt | KuiLang/Compiler/SymbolTreeBuilder.cs:85-94 | a variable symbol under the cursor, no earlier symbol changed, and one diagnostic exactly when the cursor is an `if` |
| SymbolTreeProperties.BlockBuilt | KuiLang/Compiler/SymbolTreeBuilder.cs:99-106 | the block symbol is owned by the cursor, and its first statement, unless a method or a type, is owned by the block |
| SymbolTreeProperties.NestedBlockKeepsCursor | KuiLang/Compiler/SymbolTreeBuilder.cs:39-65 | in a block not directly under the root, no statement declares a method or a type, and the cursor stays on the block |
| SymbolTreeProperties.NestedBlockBuilt | KuiLang/Compiler/SymbolTreeBuilder.cs:99-106 | a block not directly under the root declares no method or type, and every one of its statements is owned by it, in source order |
| SymbolTreeProperties.FieldAssignationBuilt | KuiLang/Compiler/SymbolTreeBuilder.cs:114-128 | the owner slot holds the selector's identifier symbol and the value slot the new value's symbol, both owned by the assignment; no earlier symbol changes |
| SymbolTreeProperties.IfBuilt | KuiLang/Compiler/SymbolTreeBuilder.cs:130-139 | the if symbol is owned by the cursor; its condition slot holds the condition's symbol, which it owns; the body is neither a method nor a type, and is owned by the if symbol |
| SymbolTreeProperties.ReturnBuilt | KuiLang/Compiler/SymbolTreeBuilder.cs:141-149 | the returned-value slot is null exactly when there is no value, and otherwise holds a symbol owned by the return |
| SymbolTreeProperties.MethodCallStatementBuilt | KuiLang/Compiler/SymbolTreeBuilder.cs:151-159 | the statement's slot holds the call expression's symbol, which it owns; no earlier symbol changes |
| SymbolTreeProperties.TypeIdentityIsFixed | KuiLang/Compiler/Symbols/TypeSymbol.cs:21-32 | while later symbols are visited a type keeps parent, syntax node, name and constructor slot; its methods and fields only grow |
| SymbolTreeProperties.MemberStep | KuiLang/Compiler/SymbolTreeBuilder.cs:74-84 | one member of a type other than a type leaves the cursor on the type; a field appends its name to the type's keys, keeping them unique; any other member leaves the fields as they were |
| SymbolTreeProperties.FieldsInDeclarationOrder | KuiLang/Compiler/Symbols/TypeSymbol.cs:30 | a type's members, none of them a type, visited in turn, leave the cursor on the type and list its field names in declaration order after the earlier keys, which stay unique |
| SymbolTreeProperties.TopLevelMethodLeavesCursorOnRoot | KuiLang/Compiler/SymbolTreeBuilder.cs:42-49 | a method in the top-level block leaves the cursor on the root, not on the block it started from |
| SymbolTreeProperties.OneStatementProgram | KuiLang/Compiler/SymbolTreeBuilder.cs:25-33 | a one-statement program succeeds exactly when its statement does in the top-level block |
| SymbolTreeProperties.ProgramRunsInTopLevel | KuiLang/Compiler/SymbolTreeBuilder.cs:30 | the pass throws, or yields its graph and diagnostics, exactly as the top-level statements do in the block under the root |
| SymbolTreeProperties.SecondTopLevelTypeThrows | KuiLang/Compiler/SymbolTreeBuilder.cs:65-70 | a program of two top-level types always throws; when the first type alone is accepted, the exception is a null dereference |
| SymbolTreeProperties.TypeAfterTopLevelMethodThrows | KuiLang/Compiler/SymbolTreeBuilder.cs:37-72 | a type after a top-level method always throws; when the method alone is accepted, the exception is a null dereference |
| SymbolTreeProperties.EmptyTypeIsAccepted | KuiLang/Compiler/SymbolTreeBuilder.cs:63-72 | a program of one member-less type not named `number` succeeds |
| SymbolTreeProperties.NumberTypeNameIsTaken | KuiLang/Compiler/SymbolTreeBuilder.cs:67 | a program starting with a type named `number` throws a duplicate key for `number` |
| SymbolTreeProperties.IfWithVariableBodySucceeds | KuiLang/Compiler/SymbolTreeBuilder.cs:130-139 | an `if` whose body is a variable declaration never throws under a statement cursor |
| SymbolTreeProperties.VariableAsIfBodyIsReported | KuiLang/Compiler/SymbolTreeBuilder.cs:90-93 | `if (c) var f` succeeds and adds exactly one `FieldSingleStatement(f)` to the channel |
| SymbolTreeProperties.FieldsEmitNothing | KuiLang/Compiler/SymbolTreeBuilder.cs:76-84 | a list of fields emits no diagnostic |
| SymbolTreeProperties.TypeFieldsAreNotReported | KuiLang/Compiler/SymbolTreeBuilder.cs:76-84 | a program of one type with only fields leaves the channel as it was |
| EndToEnd.TwoFields | KuiLang/Compiler/SymbolTreeBuilder.cs:76-84 | two fields with different names, in a type with no field yet, are both added, in declaration order, at the next two indices, and the type's methods stay |
| EndToEnd.IfThenReturnBlock | KuiLang/Compiler/SymbolTreeBuilder.cs:99-106 | `{ if (c) var; return 0; }` succeeds under any cursor; the block symbol is owned by the cursor and owns the return, which holds the literal 0 |
| EndToEnd.MethodWithIfThenReturnBody | KuiLang/Compiler/SymbolTreeBuilder.cs:37-51 | a method with that block as body, declared in a type without that method name, succeeds; the cursor ends on the type, the type maps the name to the method, the parameters follow it, and the body's block comes right after them |
| EndToEnd.OneStatementRuns | KuiLang/Compiler/SymbolTreeBuilder.cs:25-33 | a program of one statement that succeeds in the top-level block succeeds as a pass, with that statement's graph and diagnostics |
| EndToEnd.PointEmitted | KuiLang/Compiler/SymbolTreeBuilder.cs:90-93 | the only diagnostic of the `Point` program is the one for `temp`, the variable that is the whole body of the `if` |
| EndToEnd.PointScenario | KuiLang/Compiler/SymbolTreeBuilder.cs:25-33 | for every condition and channel, the pass over `Point` succeeds: `Point` is registered in the root at 3; its fields `x`, `y` sit at 4 and 5 in order; `length` is at 6 with its parameter `unit` at 7 and its block at 8, which owns `return 0`; exactly one diagnostic, for `temp`, is added |
| NestedTypeEndToEnd.InnerTypeVisited | KuiLang/Compiler/SymbolTreeBuilder.cs:63-72 | a member-less type declared where the cursor's parent is the root, under a new name, is registered in the root at the next free index, owned by the root; the cursor moves to the root and no type's fields change |
| NestedTypeEndToEnd.RootVariableVisited | KuiLang/Compiler/SymbolTreeBuilder.cs:85-94 | a field declared while the cursor is on the root is a local variable owned by the root; earlier symbols are kept and nothing is reported |
| NestedTypeEndToEnd.FirstMember | KuiLang/Compiler/SymbolTreeBuilder.cs:76-84 | the first field of a type with no field becomes its only field, at the next index, with the root untouched |
| NestedTypeEndToEnd.NestedMembers | KuiLang/Compiler/SymbolTreeBuilder.cs:63-72 | the members `f1; type Inner { }; f3` of a type owned by the root: `f1` is the type's only field, `Inner` is registered in the root, the cursor is left on the root, `f3` is a variable owned by the root, and nothing is reported |
| NestedTypeEndToEnd.NestedTypeScenario | KuiLang/Compiler/SymbolTreeBuilder.cs:63-72 | the pass over `type Outer { f1; type Inner { } f3 }` succeeds and reports nothing; `Outer` at 3 has only `f1`, at 4, as a field; `Inner` at 5 is owned by and registered in the root; `f3` at 6 is a variable owned by the root |

## Left out

- The visitor base class `AstVisitor` is not part of this model. Its dispatch is assumed:
  - `base.Visit(ast)` visits the top-level statements as a block;
  - `base.Visit(method)` visits the parameters in order, then the body;
  - `base.Visit(type)` visits the members in order;
  - `base.Visit(block)` visits the statements in order.
- `base.Visit(assignation)` in `Visit(FieldAssignation)` is taken to visit nothing more.
- `ProgramRootSymbol`, `MethodSymbol` and the other symbol classes are not part of this model. They appear only as the fields the builder reads and writes.
  - `ProgramRootSymbol.Add` is taken to be a `Dictionary.Add` on the root's types.
  - Block, if, return, assignment and call statements are taken to be the statement symbols.
  - Only the `if` symbol is taken to hold a single statement.
- `HardcodedSymbols.NumberType` is reduced to its name, `number`, and a symbol at index 1 that the builder never modifies.
- The `DiagnosticChannel` is a list of emitted diagnostics. How diagnostics are rendered or reported is not modelled.
- The builder has no visit for member calls (`MethodCall` syntax), so none is modelled. `MethodCallExpressionSymbol` is modelled on its own, as a symbol value. Its setters are used by the later resolution pass.
- In-place field updates of a symbol are modelled as replacing that symbol in the arena. A symbol is referred to by index, so every holder sees the update, as with shared references.
- After an exception, the model keeps only the exception. The half-built graph and the cursor left behind are not modelled, because nothing catches the exception.
- The parser, the later compiler passes and concurrency are outside this model.
- SymbolTree.VisitMethod: the two exceptions are stated as sufficient conditions only. A duplicate parameter name or an exception in the body also fails the visit.
- SymbolTree.VisitType: the three exceptions are stated as sufficient conditions only. A duplicate field or an exception in a member also fails the visit.
- SymbolTree.VisitIf: the invalid cast is stated as a sufficient condition only. An exception in the body also fails the visit.
- SymbolTree.VisitParameters: the invalid cast is stated as a sufficient condition only. A duplicate parameter name also fails.
- SymbolTree.DeclareMethod: the duplicate key is stated as a sufficient condition only. A duplicate parameter name also fails.
- SymbolTree.VisitOperator: its own contract says only that the result is a function-call symbol. The argument and operand facts are in `OperatorDropsLeftOperand`.
- SymbolTreeProperties.MethodBuilt: states only that the declared parameter names are among the method's parameter keys after the body. `SymbolTree.DeclareMethod` states equality and each parameter's entry before the body, and `SymbolTree.ParametersPlacedExtends` keeps the entries as the arena extends.
- SymbolTreeProperties.BlockBuilt: for the block directly under the root, only the first statement's owner is stated. A method or a type there moves the cursor to the root; `SymbolTree.VisitStatements` states the owners of all statements only when the cursor stays.
- SymbolTreeProperties.TypeBuilt: the members' owners and the field list are stated only when no member is a type. A nested type moves the cursor to the root, and the members after it are built there.
- SymbolTreeProperties.BodyUnderMethod: a body that is a type is owned by the root, not the method; that case is left out of the ownership clause.
- TypeSymbols.IdentifierFollowsName: assumes `Identifier` compares by value. Its class is not part of this model; if it compares by reference, two reads of `Identifier` are different objects.
