/** The symbol graph as an arena: every symbol sits at an index, and refers
    to its parent scope and to its children by index. Index 0 holds the
    program root and index 1 the built-in number type. */
module SymbolGraph {
  import opened Common
  import opened Collections
  import opened TypeSymbols
  import opened MethodCallExpressionSymbols
  import Ast

  const RootRef: Ref := 0
  const NumberTypeRef: Ref := 1

  /** Name under which the built-in number type is registered. The registry
      that provides it is external; only its name is modelled. */
  const NumberTypeName: string := "number"

  /** Slots assigned after construction are `Option`s; the builder fills each
      one right after visiting the child it refers to. */
  datatype Symbol =
    | ProgramRoot(types: map<string, Ref>, methods: map<string, Ref>)
    | BuiltinType(builtinName: string)
    | TypeNode(t: TypeSymbol)
    | MethodNode(parent: Ref, methodAst: Ast.MethodDecl, parameterSymbols: map<string, Ref>, returnType: Option<Ref>)
    | ParameterNode(parent: Ref, parameterAst: Ast.Parameter)
    | FieldNode(parent: Ref, fieldAst: Ast.FieldDecl, initValue: Option<Ref>)
    | VariableNode(parent: Ref, fieldAst: Ast.FieldDecl, initValue: Option<Ref>)
    | BlockNode(parent: Ref)
    | IfNode(parent: Ref, condition: Option<Ref>)
    | ReturnNode(parent: Ref, returnedValue: Option<Ref>)
    | FieldAssignationNode(parent: Ref, fieldOwner: Option<Ref>, newFieldValue: Option<Ref>)
    | MethodCallStatementNode(parent: Ref, methodCallExpression: Option<Ref>)
    | IdentifierValueNode(parent: Ref, identifier: string)
    | NumberLiteralNode(parent: Ref, value: int)
    | FunctionCallNode(parent: Ref, callAst: Ast.Expr, arguments: Option<seq<Ref>>)
    | MethodCallNode(call: MethodCallExpressionSymbol)

  /** The owning-scope reference; the root and the built-in type have none here. */
  function ParentOf(s: Symbol): Option<Ref> {
    match s
    case ProgramRoot(_, _) => None
    case BuiltinType(_) => None
    case TypeNode(t) => Some(t.parent)
    case MethodCallNode(c) => Some(c.parent)
    case _ => Some(s.parent)
  }

  /** `ISymbolWithMethods`: the program root and user types. */
  predicate IsSymbolWithMethods(s: Symbol) {
    s.ProgramRoot? || s.TypeNode?
  }

  /** `StatementSymbol`: the symbols built for statements. */
  predicate IsStatementSymbol(s: Symbol) {
    s.BlockNode? || s.IfNode? || s.ReturnNode? || s.FieldAssignationNode? || s.MethodCallStatementNode?
  }

  /** `ISymbolWithAStatement`: a scope whose body is one statement, not a block. */
  predicate IsSymbolWithAStatement(s: Symbol) {
    s.IfNode?
  }

  /** Whether symbol `s` may sit at index `i`: the root at 0, the built-in
      type at 1, and anywhere else a symbol owned by an earlier one (never by
      the built-in type). */
  ghost predicate Fits(s: Symbol, i: nat) {
    if i == RootRef then s.ProgramRoot?
    else if i == NumberTypeRef then s.BuiltinType?
    else
      && !s.ProgramRoot? && !s.BuiltinType?
      && ParentOf(s).Some? && ParentOf(s).value < i && ParentOf(s).value != NumberTypeRef
  }

  /** The arena's shape: every symbol fits its index. */
  ghost predicate WellFormed(arena: seq<Symbol>) {
    |arena| >= 2 && forall i {:trigger Fits(arena[i], i)} :: 0 <= i < |arena| ==> Fits(arena[i], i)
  }

  lemma AppendKeepsWellFormed(arena: seq<Symbol>, s: Symbol)
    requires WellFormed(arena) && Fits(s, |arena|)
    ensures WellFormed(arena + [s])
  {
    forall i | 0 <= i < |arena| + 1
      ensures Fits((arena + [s])[i], i)
    {
      if i < |arena| {
        assert (arena + [s])[i] == arena[i];
      }
    }
  }

  lemma UpdateKeepsWellFormed(arena: seq<Symbol>, i: nat, s: Symbol)
    requires WellFormed(arena) && i < |arena| && Fits(s, i)
    ensures WellFormed(arena[i := s])
  {
  }

  /** The chain of owning scopes from symbol `i` up to the root. */
  function ScopeChain(arena: seq<Symbol>, i: Ref): (chain: seq<Ref>)
    requires WellFormed(arena) && i < |arena| && i != NumberTypeRef
    ensures |chain| >= 1 && chain[0] == i && chain[|chain| - 1] == RootRef
    ensures |chain| <= i + 1
    ensures forall j :: 0 <= j < |chain| ==> chain[j] <= i
    ensures forall j :: 0 <= j < |chain| - 1 ==> ParentOf(arena[chain[j]]) == Some(chain[j + 1])
    ensures forall j :: 0 <= j < |chain| - 1 ==> chain[j + 1] < chain[j]
    decreases i
  {
    if i == RootRef then [i]
    else
      assert Fits(arena[i], i);
      [i] + ScopeChain(arena, ParentOf(arena[i]).value)
  }

  /** How one symbol may change once built: a dictionary of the root, of a
      type or of a method grows; nothing else about any symbol changes. */
  ghost predicate Evolves(x: Symbol, y: Symbol) {
    match x
    case ProgramRoot(ts, ms) => y.ProgramRoot? && SubMap(ts, y.types) && SubMap(ms, y.methods)
    case TypeNode(t) => y.TypeNode? && Grows(t, y.t)
    case MethodNode(p, a, ps, rt) =>
      y.MethodNode? && y.parent == p && y.methodAst == a && y.returnType == rt && SubMap(ps, y.parameterSymbols)
    case _ => y == x
  }

  lemma EvolvesTransitive(x: Symbol, y: Symbol, z: Symbol)
    requires Evolves(x, y) && Evolves(y, z)
    ensures Evolves(x, z)
  {
  }

  /** `ISymbolWithMethods.Methods`. */
  function MethodsOf(s: Symbol): map<string, Ref>
    requires IsSymbolWithMethods(s)
  {
    if s.ProgramRoot? then s.methods else s.t.methods
  }

  /** The types registered in the root of a well-formed arena. */
  function RootTypes(arena: seq<Symbol>): map<string, Ref>
    requires WellFormed(arena)
  {
    assert Fits(arena[RootRef], RootRef);
    arena[RootRef].types
  }

  /** What a symbol keeps while it evolves: its parent, its kind, and every
      entry of its dictionaries. */
  lemma EvolvesKeepsShape(x: Symbol, y: Symbol)
    requires Evolves(x, y)
    ensures ParentOf(y) == ParentOf(x)
    ensures IsSymbolWithMethods(y) == IsSymbolWithMethods(x)
    ensures IsStatementSymbol(y) == IsStatementSymbol(x)
    ensures IsSymbolWithAStatement(y) == IsSymbolWithAStatement(x)
    ensures y.ProgramRoot? == x.ProgramRoot? && y.TypeNode? == x.TypeNode? && y.MethodNode? == x.MethodNode?
    ensures IsSymbolWithMethods(x) ==> SubMap(MethodsOf(x), MethodsOf(y))
    ensures x.ProgramRoot? ==> SubMap(x.types, y.types)
    ensures x.TypeNode? ==> TypeSymbols.SameIdentity(x.t, y.t) && OrderedGrows(x.t.fields, y.t.fields)
    ensures x.MethodNode? ==> y.parent == x.parent && y.methodAst == x.methodAst && y.returnType == x.returnType
    ensures x.MethodNode? ==> SubMap(x.parameterSymbols, y.parameterSymbols)
  {
  }

  lemma EvolvesReflexive(x: Symbol)
    ensures Evolves(x, x)
  {
    if x.TypeNode? {
      assert x.t.fields.keys[..|x.t.fields.keys|] == x.t.fields.keys;
    }
  }

  lemma EvolvesReflexiveAll(a: seq<Symbol>)
    ensures Extends(a, a)
  {
    forall i | 0 <= i < |a|
      ensures Evolves(a[i], a[i])
    {
      EvolvesReflexive(a[i]);
    }
  }

  /** The arena `a'` extends `a`: every old symbol has only evolved. */
  ghost predicate Extends(a: seq<Symbol>, a': seq<Symbol>) {
    |a| <= |a'| && forall i {:trigger Evolves(a[i], a'[i])} :: 0 <= i < |a| ==> Evolves(a[i], a'[i])
  }

  /** The arena `a'` keeps every symbol of `a` as it was. */
  ghost predicate Keeps(a: seq<Symbol>, a': seq<Symbol>) {
    |a| <= |a'| && forall i :: 0 <= i < |a| ==> a'[i] == a[i]
  }

  /** Every type of `a` keeps its fields in `a'`, except possibly type `except`. */
  ghost predicate FieldsKept(a: seq<Symbol>, a': seq<Symbol>, except: Option<Ref>) {
    && |a| <= |a'|
    && forall i :: 0 <= i < |a| && a[i].TypeNode? && except != Some(i) ==> a'[i].TypeNode? && a'[i].t.fields == a[i].t.fields
  }

  lemma KeepsFieldsKept(a: seq<Symbol>, a': seq<Symbol>)
    requires Keeps(a, a')
    ensures FieldsKept(a, a', None)
  {
  }

  /** Two steps keep the fields of every type but `except`, when each step's
      own exception is `except`, none, or no type of `a`. */
  lemma FieldsKeptTransitive(a: seq<Symbol>, b: seq<Symbol>, c: seq<Symbol>, e1: Option<Ref>, e2: Option<Ref>, except: Option<Ref>)
    requires FieldsKept(a, b, e1) && FieldsKept(b, c, e2) && Extends(a, b)
    requires e1.Some? ==> e1 == except
    requires e2.Some? && e2.value < |a| && a[e2.value].TypeNode? ==> e2 == except
    ensures FieldsKept(a, c, except)
  {
    forall i | 0 <= i < |a| && a[i].TypeNode? && except != Some(i)
      ensures c[i].TypeNode? && c[i].t.fields == a[i].t.fields
    {
    }
  }

  lemma KeepsExtends(a: seq<Symbol>, a': seq<Symbol>)
    requires Keeps(a, a')
    ensures Extends(a, a')
  {
    forall i | 0 <= i < |a|
      ensures Evolves(a[i], a'[i])
    {
      EvolvesReflexive(a[i]);
    }
  }

  lemma ExtendsTransitive(a: seq<Symbol>, b: seq<Symbol>, c: seq<Symbol>)
    requires Extends(a, b) && Extends(b, c)
    ensures Extends(a, c)
  {
    forall i | 0 <= i < |a|
      ensures Evolves(a[i], c[i])
    {
      EvolvesTransitive(a[i], b[i], c[i]);
    }
  }

  /** `ReturnType => TargetMethod.ReturnType`: read through the target method
      on every access; a null target method is a null dereference. */
  function ReturnType(arena: seq<Symbol>, c: MethodCallExpressionSymbol): (r: Result<Option<Ref>>)
    requires c.targetMethod.Some? ==> c.targetMethod.value < |arena| && arena[c.targetMethod.value].MethodNode?
    ensures r.Throw? <==> c.targetMethod.None?
    ensures r.Throw? ==> r.exception == NullReference
    ensures r.Ok? ==> r.value == arena[c.targetMethod.value].returnType
  {
    match c.targetMethod
    case None => Throw(NullReference)
    case Some(m) => Ok(arena[m].returnType)
  }

  /** The return type is read through, not stored: a fresh call symbol has
      none to read, and once a target is set it is that method's current
      return type, following any later change to it. */
  lemma ReturnTypeFollowsTarget(arena: seq<Symbol>, c: MethodCallExpressionSymbol, m: Ref, rt: Option<Ref>)
    requires m < |arena| && arena[m].MethodNode?
    ensures ReturnType(arena, NewMethodCallExpressionSymbol(c.parent, c.ast)) == Throw(NullReference)
    ensures ReturnType(arena, SetTargetMethod(c, m)) == Ok(arena[m].returnType)
    ensures ReturnType(arena[m := arena[m].(returnType := rt)], SetTargetMethod(c, m)) == Ok(rt)
  {
  }
}
