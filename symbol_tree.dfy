/** What each visit of the symbol-tree builder does, as functions of the
    builder's state: the arena built so far, the `_current` cursor and the
    diagnostics emitted. One function per visit; `SymbolTreeBuilder` (the
    class) is proved to compute exactly these functions. A thrown exception
    is a `Throw` result: it aborts the whole pass, so the state it leaves
    behind is not modelled. */
module SymbolTree {
  import opened Common
  import opened Collections
  import opened Ast
  import opened TypeSymbols
  import opened SymbolGraph

  /** `Diagnostic.FieldSingleStatement(field)`: a variable declared as the
      only statement of a single-statement body. */
  datatype Diagnostic = FieldSingleStatement(field: FieldDecl)

  datatype State = State(arena: seq<Symbol>, cursor: Ref, diagnostics: seq<Diagnostic>)

  /** The result of the whole pass: the graph (root at index 0) and the channel's contents. */
  datatype Graph = Graph(arena: seq<Symbol>, diagnostics: seq<Diagnostic>)

  /** During a pass the cursor is a symbol of the arena, never the built-in type. */
  ghost predicate Valid(st: State) {
    WellFormed(st.arena) && st.cursor < |st.arena| && st.cursor != NumberTypeRef
  }

  // The diagnostics a visit emits, read off the syntax tree.

  /** What visiting `s` emits when the scope it is visited under is
      (`singleStatementScope`) or is not a single-statement body: one
      `FieldSingleStatement` for each local variable that is declared as the
      whole body of an `if`, in source order. */
  function Emitted(singleStatementScope: bool, s: Stmt): seq<Diagnostic>
    decreases s, 1
  {
    (if singleStatementScope && s.FieldDef? then [FieldSingleStatement(s.field)] else []) + EmittedWithin(s)
  }

  /** What the statements nested in `s` emit. */
  function EmittedWithin(s: Stmt): seq<Diagnostic>
    decreases s, 0
  {
    match s
    case Block(ss) => EmittedAll(ss)
    case MethodDef(m) => Emitted(false, m.body)
    case TypeDef(t) => EmittedAll(t.members)
    case If(_, body) => Emitted(true, body)
    case _ => []
  }

  /** What a list of statements emits, none of them a single-statement body. */
  function EmittedAll(ss: seq<Stmt>): seq<Diagnostic>
    decreases ss
  {
    if ss == [] then [] else Emitted(false, ss[0]) + EmittedAll(ss[1..])
  }

  // State steps: allocate a symbol, replace one, move the cursor, emit a diagnostic.

  function Alloc(st: State, s: Symbol): (st': State)
    requires Valid(st) && Fits(s, |st.arena|)
    ensures Valid(st') && st'.arena == st.arena + [s]
    ensures st'.cursor == st.cursor && st'.diagnostics == st.diagnostics
  {
    AppendKeepsWellFormed(st.arena, s);
    st.(arena := st.arena + [s])
  }

  function Put(st: State, i: Ref, s: Symbol): (st': State)
    requires Valid(st) && i < |st.arena| && Fits(s, i)
    ensures Valid(st') && st'.arena == st.arena[i := s]
    ensures st'.cursor == st.cursor && st'.diagnostics == st.diagnostics
  {
    UpdateKeepsWellFormed(st.arena, i, s);
    st.(arena := st.arena[i := s])
  }

  function MoveTo(st: State, i: Ref): (st': State)
    requires Valid(st) && i < |st.arena| && i != NumberTypeRef
    ensures Valid(st') && st' == st.(cursor := i)
  {
    st.(cursor := i)
  }

  /** A new symbol at the next free index, which becomes the cursor. */
  function Enter(st: State, s: Symbol): (st': State)
    requires Valid(st) && Fits(s, |st.arena|)
    ensures Valid(st') && st' == State(st.arena + [s], |st.arena|, st.diagnostics)
  {
    MoveTo(Alloc(st, s), |st.arena|)
  }

  /** Symbol `i` with its slots filled in, and the cursor restored to `c`. */
  function Leave(st: State, i: Ref, s: Symbol, c: Ref): (st': State)
    requires Valid(st) && i < |st.arena| && Fits(s, i) && c < |st.arena| && c != NumberTypeRef
    ensures Valid(st') && st' == State(st.arena[i := s], c, st.diagnostics)
  {
    MoveTo(Put(st, i, s), c)
  }

  function Emit(st: State, d: Diagnostic): (st': State)
    requires Valid(st)
    ensures Valid(st') && st' == st.(diagnostics := st.diagnostics + [d])
  {
    st.(diagnostics := st.diagnostics + [d])
  }

  // Expressions. None of them throws, moves the cursor, emits anything or
  // changes a symbol built before it; each builds its symbol at the next
  // free index, under the cursor, followed by the symbols of its operands.

  ghost predicate ExpressionBuilt(st: State, st': State, e: Ref) {
    && Valid(st') && st'.cursor == st.cursor && st'.diagnostics == st.diagnostics
    && |st.arena| < |st'.arena| && Keeps(st.arena, st'.arena)
    && e == |st.arena| && ParentOf(st'.arena[e]) == Some(st.cursor)
  }

  /** The symbols of `args`, in source order: the `i`-th comes right after the
      symbols of the arguments before it, which start at `first`, and each is
      owned by `owner`. */
  ghost predicate ArgumentsInOrder(a: seq<Symbol>, owner: Ref, first: nat, refs: seq<Ref>, args: seq<Expr>) {
    && |refs| == |args|
    && forall i :: 0 <= i < |refs| ==>
         refs[i] == first + ExprsSize(args[..i]) && refs[i] < |a| && ParentOf(a[refs[i]]) == Some(owner)
  }

  function VisitExpression(st: State, e: Expr): (r: (State, Ref))
    requires Valid(st)
    ensures ExpressionBuilt(st, r.0, r.1)
    ensures |r.0.arena| == |st.arena| + ExprSize(e)
    ensures r.0.arena[r.1].IdentifierValueNode? <==> e.IdentifierValue?
    decreases e, 1
  {
    match e
    case IdentifierValue(_) => VisitIdentifierValue(st, e)
    case Number(_) => VisitNumber(st, e)
    case FuncCall(_, _) => VisitFuncCall(st, e)
    case Operator(_, _, _) => VisitOperator(st, e)
  }

  function VisitIdentifierValue(st: State, e: Expr): (r: (State, Ref))
    requires Valid(st) && e.IdentifierValue?
    ensures ExpressionBuilt(st, r.0, r.1) && |r.0.arena| == |st.arena| + 1
    ensures r.0.arena[r.1] == IdentifierValueNode(st.cursor, e.name)
  {
    (Alloc(st, IdentifierValueNode(st.cursor, e.name)), |st.arena|)
  }

  function VisitNumber(st: State, e: Expr): (r: (State, Ref))
    requires Valid(st) && e.Number?
    ensures ExpressionBuilt(st, r.0, r.1) && |r.0.arena| == |st.arena| + 1
    ensures r.0.arena[r.1] == NumberLiteralNode(st.cursor, e.value)
  {
    (Alloc(st, NumberLiteralNode(st.cursor, e.value)), |st.arena|)
  }

  /** The call symbol is the cursor while the arguments are visited. */
  function VisitFuncCall(st: State, e: Expr): (r: (State, Ref))
    requires Valid(st) && e.FuncCall?
    ensures ExpressionBuilt(st, r.0, r.1) && |r.0.arena| == |st.arena| + ExprSize(e)
    ensures var call := r.0.arena[r.1];
      && call.FunctionCallNode? && call.callAst == e && call.arguments.Some?
      && ArgumentsInOrder(r.0.arena, r.1, r.1 + 1, call.arguments.value, e.arguments)
    decreases e, 0
  {
    var c, k := st.cursor, |st.arena|;
    var (st1, args) := VisitArguments(Enter(st, FunctionCallNode(c, e, None)), e.arguments);
    (Leave(st1, k, FunctionCallNode(c, e, Some(args)), c), k)
  }

  /** The left operand is visited under the outer cursor and its symbol is
      dropped; the right operand is visited under the call symbol and is its
      only argument. */
  function VisitOperator(st: State, e: Expr): (r: (State, Ref))
    requires Valid(st) && e.Operator?
    ensures ExpressionBuilt(st, r.0, r.1) && |r.0.arena| == |st.arena| + ExprSize(e)
    ensures r.0.arena[r.1].FunctionCallNode?
    decreases e, 0
  {
    var c, k := st.cursor, |st.arena|;
    var st1 := Alloc(st, FunctionCallNode(c, e, None));
    var (st2, left) := VisitExpression(st1, e.left);
    var (st3, right) := VisitExpression(MoveTo(st2, k), e.right);
    (Leave(st3, k, FunctionCallNode(c, e, Some([right])), c), k)
  }

  /** `Arguments.Select(Visit)`: each argument in order, under the same cursor. */
  function VisitArguments(st: State, args: seq<Expr>): (r: (State, seq<Ref>))
    requires Valid(st)
    ensures Valid(r.0) && r.0.cursor == st.cursor && r.0.diagnostics == st.diagnostics
    ensures |r.0.arena| == |st.arena| + ExprsSize(args) && Keeps(st.arena, r.0.arena)
    ensures ArgumentsInOrder(r.0.arena, st.cursor, |st.arena|, r.1, args)
    decreases args
  {
    if args == [] then (st, [])
    else
      var (st1, first) := VisitExpression(st, args[0]);
      var (st2, rest) := VisitArguments(st1, args[1..]);
      ExprsSizePrefix(args);
      (st2, [first] + rest)
  }

  /** An initializer or a returned value: `e != null ? Visit(e) : null`. */
  function VisitOptional(st: State, e: Option<Expr>): (r: (State, Option<Ref>))
    requires Valid(st)
    ensures Valid(r.0) && r.0.cursor == st.cursor && r.0.diagnostics == st.diagnostics
    ensures |r.0.arena| == |st.arena| + OptionalExprSize(e) && Keeps(st.arena, r.0.arena)
    ensures r.1.None? <==> e.None?
    ensures r.1.Some? ==> ExpressionBuilt(st, r.0, r.1.value)
  {
    match e
    case None => (st, None)
    case Some(x) =>
      var (st1, v) := VisitExpression(st, x);
      (st1, Some(v))
  }

  /** The slot filled with an optional child visited under symbol `k`: null
      exactly when there is no child, and otherwise the child's symbol, built
      right after `k` and owned by it. */
  ghost predicate ChildBuilt(a: seq<Symbol>, k: Ref, slot: Option<Ref>, e: Option<Expr>) {
    && (slot.None? <==> e.None?)
    && (slot.Some? ==> slot.value == k + 1 && k + 1 < |a| && ParentOf(a[k + 1]) == Some(k))
  }

  // Declarations.

  /** The owner of a method declared under the cursor: the cursor itself if it
      holds methods, the root if the cursor is a block directly under the root. */
  function MethodOwner(arena: seq<Symbol>, cursor: Ref): (r: Result<Ref>)
    requires WellFormed(arena) && cursor < |arena|
    ensures IsSymbolWithMethods(arena[cursor]) ==> r == Ok(cursor)
    ensures !IsSymbolWithMethods(arena[cursor]) && arena[cursor].BlockNode? && arena[cursor].parent == RootRef ==> r == Ok(RootRef)
    ensures !IsSymbolWithMethods(arena[cursor]) && !(arena[cursor].BlockNode? && arena[cursor].parent == RootRef) ==>
      r == Throw(UnknownMethodParent)
    ensures r.Ok? ==> r.value < |arena| && IsSymbolWithMethods(arena[r.value]) && r.value != NumberTypeRef
  {
    assert Fits(arena[cursor], cursor);
    if IsSymbolWithMethods(arena[cursor]) then Ok(cursor)
    else if arena[cursor].BlockNode? && (assert Fits(arena[cursor], cursor); arena[arena[cursor].parent].ProgramRoot?) then
      assert Fits(arena[arena[cursor].parent], arena[cursor].parent);
      Ok(arena[cursor].parent)
    else
      assert arena[cursor].BlockNode? ==> arena[cursor].parent != RootRef by {
        assert Fits(arena[RootRef], RootRef);
      }
      Throw(UnknownMethodParent)
  }

  /** `owner.Methods.Add(name, method)`. */
  function RegisterMethod(st: State, owner: Ref, name: string, methodRef: Ref): (r: Result<State>)
    requires Valid(st) && owner < |st.arena| && IsSymbolWithMethods(st.arena[owner])
    ensures r.Throw? <==> name in MethodsOf(st.arena[owner])
    ensures r.Throw? ==> r.exception == DuplicateKey(name)
    ensures r.Ok? ==> Valid(r.value) && |r.value.arena| == |st.arena| && Extends(st.arena, r.value.arena)
    ensures r.Ok? ==> r.value.cursor == st.cursor && r.value.diagnostics == st.diagnostics
    ensures r.Ok? ==> (IsSymbolWithMethods(r.value.arena[owner])
      && MethodsOf(r.value.arena[owner]) == MethodsOf(st.arena[owner])[name := methodRef])
    ensures r.Ok? ==> forall i :: 0 <= i < |st.arena| && i != owner ==> r.value.arena[i] == st.arena[i]
    ensures r.Ok? ==> FieldsKept(st.arena, r.value.arena, None)
  {
    assert Fits(st.arena[owner], owner);
    match st.arena[owner]
    case ProgramRoot(types, methods) =>
      if name in methods then Throw(DuplicateKey(name))
      else Ok(Put(st, owner, ProgramRoot(types, methods[name := methodRef])))
    case TypeNode(t) =>
      match AddMethod(t, name, methodRef)
      case None => Throw(DuplicateKey(name))
      case Some(t') => Ok(Put(st, owner, TypeNode(t')))
  }

  /** `root.Add(type)`: registers a type by name in the root. */
  function RegisterType(st: State, name: string, typeRef: Ref): (r: Result<State>)
    requires Valid(st)
    ensures r.Throw? <==> name in RootTypes(st.arena)
    ensures r.Throw? ==> r.exception == DuplicateKey(name)
    ensures r.Ok? ==> Valid(r.value) && |r.value.arena| == |st.arena| && Extends(st.arena, r.value.arena)
    ensures r.Ok? ==> r.value.cursor == st.cursor && r.value.diagnostics == st.diagnostics
    ensures r.Ok? ==> RootTypes(r.value.arena) == RootTypes(st.arena)[name := typeRef]
    ensures r.Ok? ==> forall i :: 0 < i < |st.arena| ==> r.value.arena[i] == st.arena[i]
  {
    assert Fits(st.arena[RootRef], RootRef);
    var types := st.arena[RootRef].types;
    if name in types then Throw(DuplicateKey(name))
    else Ok(Put(st, RootRef, ProgramRoot(types[name := typeRef], st.arena[RootRef].methods)))
  }

  /** `Visit(Parameter)`: the cursor must be a method (the cast), the name new
      to it; one parameter symbol is built and registered under its name. */
  function VisitParameter(st: State, p: Parameter): (r: Result<State>)
    requires Valid(st)
    ensures !st.arena[st.cursor].MethodNode? ==> r == Throw(InvalidCast)
    ensures st.arena[st.cursor].MethodNode? ==>
      (r.Throw? <==> p.name in st.arena[st.cursor].parameterSymbols) && (r.Throw? ==> r.exception == DuplicateKey(p.name))
    ensures r.Ok? ==> Valid(r.value) && |r.value.arena| == |st.arena| + 1 && Extends(st.arena, r.value.arena)
    ensures r.Ok? ==> r.value.cursor == st.cursor && r.value.diagnostics == st.diagnostics
    ensures r.Ok? ==> var c, a := st.cursor, r.value.arena;
      && a[|st.arena|] == ParameterNode(c, p)
      && a[c] == st.arena[c].(parameterSymbols := st.arena[c].parameterSymbols[p.name := |st.arena|])
      && forall i :: 0 <= i < |st.arena| && i != c ==> a[i] == st.arena[i]
  {
    var c, k := st.cursor, |st.arena|;
    var m := st.arena[c];
    if !m.MethodNode? then Throw(InvalidCast)
    else if p.name in m.parameterSymbols then Throw(DuplicateKey(p.name))
    else
      assert Fits(m, c);
      var st' := Put(Alloc(st, ParameterNode(c, p)), c, m.(parameterSymbols := m.parameterSymbols[p.name := k]));
      assert Extends(st.arena, st'.arena) by {
        forall i | 0 <= i < |st.arena|
          ensures Evolves(st.arena[i], st'.arena[i])
        {
          if i != c {
            assert st'.arena[i] == st.arena[i];
            EvolvesReflexive(st.arena[i]);
          }
        }
      }
      Ok(st')
  }

  /** The symbols of parameters `ps`, in order from index `k`, each owned by
      method `c` and registered in it under its name. */
  ghost predicate ParametersPlaced(a: seq<Symbol>, c: Ref, k: nat, ps: seq<Parameter>) {
    && c < |a| && a[c].MethodNode? && k + |ps| <= |a|
    && forall i {:trigger ps[i]} :: 0 <= i < |ps| ==>
         a[k + i] == ParameterNode(c, ps[i]) && ps[i].name in a[c].parameterSymbols && a[c].parameterSymbols[ps[i].name] == k + i
  }

  lemma ParametersPlacedStep(a1: seq<Symbol>, a2: seq<Symbol>, c: Ref, k: nat, ps: seq<Parameter>)
    requires ps != [] && k < |a1| <= |a2| && c < |a1| && c != k
    requires a1[k] == ParameterNode(c, ps[0]) && a2[k] == a1[k]
    requires a1[c].MethodNode? && ps[0].name in a1[c].parameterSymbols && a1[c].parameterSymbols[ps[0].name] == k
    requires Evolves(a1[c], a2[c]) && ParametersPlaced(a2, c, k + 1, ps[1..])
    ensures ParametersPlaced(a2, c, k, ps)
  {
    forall i | 0 <= i < |ps|
      ensures a2[k + i] == ParameterNode(c, ps[i]) && ps[i].name in a2[c].parameterSymbols && a2[c].parameterSymbols[ps[i].name] == k + i
    {
      if i > 0 {
        assert ps[1..][i - 1] == ps[i];
      }
    }
  }

  /** Placed parameters stay placed while the arena only extends. */
  lemma ParametersPlacedExtends(a: seq<Symbol>, a': seq<Symbol>, c: Ref, k: nat, ps: seq<Parameter>)
    requires ParametersPlaced(a, c, k, ps) && Extends(a, a')
    ensures ParametersPlaced(a', c, k, ps)
  {
    assert Evolves(a[c], a'[c]);
    forall i | 0 <= i < |ps|
      ensures a'[k + i] == ParameterNode(c, ps[i])
    {
      assert Evolves(a[k + i], a'[k + i]);
    }
  }

  /** What a successful visit of parameters `ps` does: one symbol per
      parameter and only the cursor's symbol changes, the cursor and the
      diagnostics stay; under a method, the parameters are placed in order
      and their names are added to the method's. */
  ghost predicate ParametersVisited(st: State, ps: seq<Parameter>, st': State)
    requires Valid(st)
  {
    && Valid(st') && |st'.arena| == |st.arena| + |ps| && Extends(st.arena, st'.arena)
    && st'.cursor == st.cursor && st'.diagnostics == st.diagnostics
    && (st.arena[st.cursor].MethodNode? ==> (st'.arena[st.cursor].MethodNode?
      && st'.arena[st.cursor].parameterSymbols.Keys == st.arena[st.cursor].parameterSymbols.Keys + ParameterNames(ps)))
    && (st.arena[st.cursor].MethodNode? ==> ParametersPlaced(st'.arena, st.cursor, |st.arena|, ps))
    && (forall i :: 0 <= i < |st.arena| && i != st.cursor ==> st'.arena[i] == st.arena[i])
    && FieldsKept(st.arena, st'.arena, None)
  }

  lemma ParametersVisitedEmpty(st: State)
    requires Valid(st)
    ensures ParametersVisited(st, [], st)
  {
    EvolvesReflexiveAll(st.arena);
  }

  lemma ParametersVisitedStep(st: State, ps: seq<Parameter>, st1: State, st2: State)
    requires Valid(st) && ps != [] && VisitParameter(st, ps[0]) == Ok(st1) && ParametersVisited(st1, ps[1..], st2)
    ensures ParametersVisited(st, ps, st2)
  {
    var c, k := st.cursor, |st.arena|;
    ExtendsTransitive(st.arena, st1.arena, st2.arena);
    assert Evolves(st1.arena[c], st2.arena[c]);
    ParametersPlacedStep(st1.arena, st2.arena, c, k, ps);
    assert ParameterNames(ps) == {ps[0].name} + ParameterNames(ps[1..]);
    ParametersStepOthers(st, ps, st1, st2);
  }

  /** The part of `ParametersVisitedStep` about the other symbols. */
  lemma ParametersStepOthers(st: State, ps: seq<Parameter>, st1: State, st2: State)
    requires Valid(st) && ps != [] && VisitParameter(st, ps[0]) == Ok(st1) && ParametersVisited(st1, ps[1..], st2)
    ensures forall i :: 0 <= i < |st.arena| && i != st.cursor ==> st2.arena[i] == st.arena[i]
    ensures FieldsKept(st.arena, st2.arena, None)
  {
    var c, k := st.cursor, |st.arena|;
    forall i | 0 <= i < k && st.arena[i].TypeNode?
      ensures st2.arena[i].TypeNode? && st2.arena[i].t.fields == st.arena[i].t.fields
    {
      assert i != c;
      assert st2.arena[i] == st1.arena[i];
    }
  }

  /** The parameters in order, all under the method symbol. */
  function VisitParameters(st: State, ps: seq<Parameter>): (r: Result<State>)
    requires Valid(st)
    ensures ps != [] && !st.arena[st.cursor].MethodNode? ==> r == Throw(InvalidCast)
    ensures r.Ok? ==> ParametersVisited(st, ps, r.value)
    decreases ps
  {
    if ps == [] then ParametersVisitedEmpty(st); Ok(st)
    else
      var st1 :- VisitParameter(st, ps[0]);
      var st2 :- VisitParameters(st1, ps[1..]);
      ParametersVisitedStep(st, ps, st1, st2);
      Ok(st2)
  }

  // Statements.

  ghost predicate StatementBuilt(st: State, st': State) {
    Valid(st') && |st.arena| < |st'.arena| && Extends(st.arena, st'.arena)
  }

  /** What every successful statement visit does: it builds one symbol per
      syntax node and only lets earlier symbols evolve; it emits what the
      syntax tree says; and it leaves the cursor at the root after a type, at
      the method's owner after a method, and otherwise where it was. The
      statement's own symbol comes first and is owned by that final cursor:
      the root for a type, the owner for a method, otherwise the cursor the
      visit started from. No type's fields change, except the cursor's when
      the statement is a field. */
  ghost predicate Visited(st: State, s: Stmt, st': State)
    requires Valid(st)
  {
    && StatementBuilt(st, st') && |st'.arena| == |st.arena| + StmtSize(s)
    && st'.diagnostics == st.diagnostics + Emitted(IsSymbolWithAStatement(st.arena[st.cursor]), s)
    && (s.TypeDef? ==> st'.cursor == RootRef)
    && (s.MethodDef? ==> MethodOwner(st.arena, st.cursor) == Ok(st'.cursor))
    && (!s.TypeDef? && !s.MethodDef? ==> st'.cursor == st.cursor)
    && ParentOf(st'.arena[|st.arena|]) == Some(st'.cursor)
    && FieldsKept(st.arena, st'.arena, if s.FieldDef? then Some(st.cursor) else None)
  }

  /** The cursor afterwards is the root after a type, the method's owner after
      a method, and otherwise what it was. */
  function VisitStatement(st: State, s: Stmt): (r: Result<State>)
    requires Valid(st)
    ensures r.Ok? ==> Visited(st, s, r.value)
    decreases s, 1
  {
    match s
    case Block(_) => VisitBlock(st, s)
    case MethodDef(_) => VisitMethod(st, s)
    case TypeDef(_) => VisitType(st, s)
    case FieldDef(_) => VisitField(st, s)
    case FieldAssignation(_, _) => VisitFieldAssignation(st, s)
    case If(_, _) => VisitIf(st, s)
    case Return(_) => VisitReturn(st, s)
    case MethodCallStatement(_) => VisitMethodCallStatement(st, s)
  }

  /** The symbols of statements `ss`, in source order from index `first`:
      the `i`-th comes right after the symbols of the statements before it,
      and each is owned by `owner`. */
  ghost predicate OwnedInOrder(a: seq<Symbol>, owner: Ref, first: nat, ss: seq<Stmt>) {
    forall i :: 0 <= i < |ss| ==>
      first + StmtsSize(ss[..i]) < |a| && ParentOf(a[first + StmtsSize(ss[..i])]) == Some(owner)
  }

  /** What every successful visit of a statement list does: one symbol per
      syntax node, earlier symbols only evolve, the cursor ends where it
      started or at the root, outside an `if` body the diagnostics of the
      list are emitted, only the cursor's fields change, and, when the cursor
      ends where it started, every statement's symbol is owned by it. */
  ghost predicate StatementsVisited(st: State, ss: seq<Stmt>, st': State)
    requires Valid(st)
  {
    && Valid(st') && Extends(st.arena, st'.arena) && |st'.arena| == |st.arena| + StmtsSize(ss)
    && (st'.cursor == st.cursor || st'.cursor == RootRef)
    && (!IsSymbolWithAStatement(st.arena[st.cursor]) ==> st'.diagnostics == st.diagnostics + EmittedAll(ss))
    && FieldsKept(st.arena, st'.arena, Some(st.cursor))
    && (st'.cursor == st.cursor ==> OwnedInOrder(st'.arena, st.cursor, |st.arena|, ss))
  }

  lemma StatementsVisitedEmpty(st: State)
    requires Valid(st)
    ensures StatementsVisited(st, [], st)
  {
    EvolvesReflexiveAll(st.arena);
  }

  /** One statement, then the rest from where it left the cursor. */
  lemma StatementsVisitedStep(st: State, ss: seq<Stmt>, st1: State, st2: State)
    requires Valid(st) && ss != [] && Visited(st, ss[0], st1) && StatementsVisited(st1, ss[1..], st2)
    ensures StatementsVisited(st, ss, st2)
  {
    StepFrame(st, ss, st1, st2);
    StepEmitted(st, ss, st1, st2);
    StepOwned(st, ss, st1, st2);
  }

  /** The arena, cursor and fields part of `StatementsVisitedStep`. */
  lemma StepFrame(st: State, ss: seq<Stmt>, st1: State, st2: State)
    requires Valid(st) && ss != [] && Visited(st, ss[0], st1) && StatementsVisited(st1, ss[1..], st2)
    ensures Extends(st.arena, st2.arena) && |st2.arena| == |st.arena| + StmtsSize(ss)
    ensures st2.cursor == st.cursor || st2.cursor == RootRef
    ensures FieldsKept(st.arena, st2.arena, Some(st.cursor))
  {
    ExtendsTransitive(st.arena, st1.arena, st2.arena);
    assert Fits(st1.arena[RootRef], RootRef);
    assert Fits(st.arena[RootRef], RootRef);
    FieldsKeptTransitive(st.arena, st1.arena, st2.arena,
      if ss[0].FieldDef? then Some(st.cursor) else None, Some(st1.cursor), Some(st.cursor));
  }

  /** The diagnostics part of `StatementsVisitedStep`. */
  lemma StepEmitted(st: State, ss: seq<Stmt>, st1: State, st2: State)
    requires Valid(st) && ss != [] && Visited(st, ss[0], st1) && StatementsVisited(st1, ss[1..], st2)
    ensures !IsSymbolWithAStatement(st.arena[st.cursor]) ==> st2.diagnostics == st.diagnostics + EmittedAll(ss)
  {
    EvolvesKeepsShape(st.arena[st.cursor], st1.arena[st.cursor]);
    assert Fits(st1.arena[RootRef], RootRef);
    if !IsSymbolWithAStatement(st.arena[st.cursor]) {
      assert EmittedAll(ss) == Emitted(false, ss[0]) + EmittedAll(ss[1..]);
    }
  }

  /** The ownership part of `StatementsVisitedStep`. */
  lemma StepOwned(st: State, ss: seq<Stmt>, st1: State, st2: State)
    requires Valid(st) && ss != [] && Visited(st, ss[0], st1) && StatementsVisited(st1, ss[1..], st2)
    ensures st2.cursor == st.cursor ==> OwnedInOrder(st2.arena, st.cursor, |st.arena|, ss)
  {
    if st2.cursor == st.cursor {
      assert Fits(st.arena[RootRef], RootRef);
      assert st1.cursor == st.cursor;
      OwnedInOrderStep(st1.arena, st2.arena, st.cursor, |st.arena|, ss);
    }
  }

  /** The first statement's symbol at `k`, owned by `owner`, followed by the
      rest in order: the whole list is in order from `k`. */
  lemma OwnedInOrderStep(a1: seq<Symbol>, a2: seq<Symbol>, owner: Ref, k: nat, ss: seq<Stmt>)
    requires ss != [] && k < |a1| && |a1| == k + StmtSize(ss[0]) && ParentOf(a1[k]) == Some(owner)
    requires Extends(a1, a2) && OwnedInOrder(a2, owner, |a1|, ss[1..])
    ensures OwnedInOrder(a2, owner, k, ss)
  {
    EvolvesKeepsShape(a1[k], a2[k]);
    StmtsSizePrefix(ss);
    forall i | 0 <= i < |ss|
      ensures k + StmtsSize(ss[..i]) < |a2| && ParentOf(a2[k + StmtsSize(ss[..i])]) == Some(owner)
    {
      if i > 0 {
        assert |a1| + StmtsSize(ss[1..][..i - 1]) == k + StmtsSize(ss[..i]);
      }
    }
  }

  /** The first statement of a list, unless it declares a method or a type,
      is owned by the cursor the list is visited under. */
  lemma FirstStatementOwned(st: State, ss: seq<Stmt>, st1: State, st2: State)
    requires Valid(st) && ss != [] && !ss[0].TypeDef? && !ss[0].MethodDef?
    requires Visited(st, ss[0], st1) && StatementsVisited(st1, ss[1..], st2)
    ensures |st.arena| < |st2.arena| && ParentOf(st2.arena[|st.arena|]) == Some(st.cursor)
  {
    EvolvesKeepsShape(st1.arena[|st.arena|], st2.arena[|st.arena|]);
  }

  /** The statements of a block or the members of a type, in source order;
      each one starts from the cursor the previous one left, which is the
      starting cursor or the root. */
  function VisitStatements(st: State, ss: seq<Stmt>): (r: Result<State>)
    requires Valid(st)
    ensures r.Ok? ==> StatementsVisited(st, ss, r.value)
    decreases ss
  {
    if ss == [] then StatementsVisitedEmpty(st); Ok(st)
    else
      var st1 :- VisitStatement(st, ss[0]);
      var st2 :- VisitStatements(st1, ss[1..]);
      StatementsVisitedStep(st, ss, st1, st2);
      Ok(st2)
  }

  /** What a successful declaration of method `m` in `owner` does: one symbol
      for the method, made the cursor, and one per parameter; the owner
      registers the method under its name; the method symbol is owned by the
      owner, has no return type yet, and its parameters are placed in order
      under it, registered under exactly their names; fields are kept. */
  ghost predicate MethodDeclared(st: State, owner: Ref, m: MethodDecl, st': State)
    requires Valid(st) && owner < |st.arena|
  {
    && Valid(st') && |st'.arena| == |st.arena| + 1 + |m.parameters| && Extends(st.arena, st'.arena)
    && st'.cursor == |st.arena| && st'.diagnostics == st.diagnostics
    && var a, k := st'.arena, |st.arena|;
    && IsSymbolWithMethods(a[owner]) && m.name in MethodsOf(a[owner]) && MethodsOf(a[owner])[m.name] == k
    && a[k].MethodNode? && a[k].parent == owner && a[k].methodAst == m && a[k].returnType.None?
    && a[k].parameterSymbols.Keys == ParameterNames(m.parameters)
    && ParametersPlaced(a, k, k + 1, m.parameters)
    && FieldsKept(st.arena, a, None)
  }

  /** The method symbol appended at `k`, registered in its owner, and its
      parameters visited under it, make up a declaration. */
  lemma MethodDeclaredFrom(st: State, owner: Ref, m: MethodDecl, st0: State, st1: State, sp: State, st2: State)
    requires Valid(st) && owner < |st.arena| && IsSymbolWithMethods(st.arena[owner])
    requires Valid(st0) && st0.arena == st.arena + [MethodNode(owner, m, map[], None)] && st0.diagnostics == st.diagnostics
    requires RegisterMethod(st0, owner, m.name, |st.arena|) == Ok(st1)
    requires Valid(sp) && sp == st1.(cursor := |st.arena|) && ParametersVisited(sp, m.parameters, st2)
    ensures MethodDeclared(st, owner, m, st2)
  {
    var k := |st.arena|;
    assert st0.arena[owner] == st.arena[owner];
    KeepsExtends(st.arena, st0.arena);
    ExtendsTransitive(st.arena, st0.arena, st1.arena);
    ExtendsTransitive(st.arena, st1.arena, st2.arena);
    EvolvesKeepsShape(st1.arena[owner], st2.arena[owner]);
    EvolvesKeepsShape(st1.arena[k], st2.arena[k]);
    KeepsFieldsKept(st.arena, st0.arena);
    FieldsKeptTransitive(st.arena, st0.arena, st1.arena, None, None, None);
    FieldsKeptTransitive(st.arena, st1.arena, st2.arena, None, None, None);
  }

  /** The method symbol, registered in its owner and made the cursor, and
      its parameters under it; the body is not visited yet. */
  function DeclareMethod(st: State, owner: Ref, m: MethodDecl): (r: Result<State>)
    requires Valid(st) && owner < |st.arena| && IsSymbolWithMethods(st.arena[owner])
    ensures m.name in MethodsOf(st.arena[owner]) ==> r == Throw(DuplicateKey(m.name))
    ensures r.Ok? ==> MethodDeclared(st, owner, m, r.value)
  {
    var k := |st.arena|;
    assert Fits(st.arena[NumberTypeRef], NumberTypeRef);
    var st0 := Alloc(st, MethodNode(owner, m, map[], None));
    assert st0.arena[owner] == st.arena[owner];
    var st1 :- RegisterMethod(st0, owner, m.name, k);
    var st2 :- VisitParameters(MoveTo(st1, k), m.parameters);
    MethodDeclaredFrom(st, owner, m, st0, st1, MoveTo(st1, k), st2);
    Ok(st2)
  }

  /** After the body the cursor is reset to the method's parent, its owner. */
  function VisitMethod(st: State, s: Stmt): (r: Result<State>)
    requires Valid(st) && s.MethodDef?
    ensures MethodOwner(st.arena, st.cursor).Throw? ==> r == Throw(UnknownMethodParent)
    ensures (MethodOwner(st.arena, st.cursor).Ok?
      && s.methodDecl.name in MethodsOf(st.arena[MethodOwner(st.arena, st.cursor).value])) ==>
      r == Throw(DuplicateKey(s.methodDecl.name))
    ensures r.Ok? ==> Visited(st, s, r.value)
    decreases s, 0
  {
    var owner :- MethodOwner(st.arena, st.cursor);
    var st1 :- DeclareMethod(st, owner, s.methodDecl);
    var st2 :- VisitStatement(st1, s.methodDecl.body);
    MethodVisitedFrom(st, s, owner, st1, st2);
    Ok(MoveTo(st2, owner))
  }

  /** A method declared in its owner, then its body visited, with the
      cursor put back on the owner, is a visit of the method. */
  lemma MethodVisitedFrom(st: State, s: Stmt, owner: Ref, st1: State, st2: State)
    requires Valid(st) && s.MethodDef? && MethodOwner(st.arena, st.cursor) == Ok(owner)
    requires MethodDeclared(st, owner, s.methodDecl, st1) && Visited(st1, s.methodDecl.body, st2)
    ensures Visited(st, s, st2.(cursor := owner))
  {
    ExtendsTransitive(st.arena, st1.arena, st2.arena);
    EvolvesKeepsShape(st1.arena[|st.arena|], st2.arena[|st.arena|]);
    FieldsKeptTransitive(st.arena, st1.arena, st2.arena, None,
      if s.methodDecl.body.FieldDef? then Some(st1.cursor) else None, None);
    assert !IsSymbolWithAStatement(st1.arena[st1.cursor]);
    assert Emitted(IsSymbolWithAStatement(st.arena[st.cursor]), s) == Emitted(false, s.methodDecl.body);
  }

  /** The type symbol, owned by the root and registered in it by name, made
      the cursor; its members are not visited yet. */
  function DeclareType(st: State, t: TypeDecl): (r: Result<State>)
    requires Valid(st)
    ensures r.Throw? <==> t.name in RootTypes(st.arena)
    ensures r.Throw? ==> r.exception == DuplicateKey(t.name)
    ensures r.Ok? ==> Valid(r.value) && |r.value.arena| == |st.arena| + 1 && Extends(st.arena, r.value.arena)
    ensures r.Ok? ==> r.value.cursor == |st.arena| && r.value.diagnostics == st.diagnostics
    ensures r.Ok? ==> r.value.arena[|st.arena|] == TypeNode(NewTypeSymbol(RootRef, t))
    ensures r.Ok? ==> RootTypes(r.value.arena) == RootTypes(st.arena)[t.name := |st.arena|]
    ensures r.Ok? ==> FieldsKept(st.arena, r.value.arena, None)
  {
    var k := |st.arena|;
    var st0 := Alloc(st, TypeNode(NewTypeSymbol(RootRef, t)));
    assert st0.arena[RootRef] == st.arena[RootRef];
    var st1 :- RegisterType(st0, t.name, k);
    KeepsExtends(st.arena, st0.arena);
    ExtendsTransitive(st.arena, st0.arena, st1.arena);
    assert Fits(st.arena[RootRef], RootRef);
    Ok(MoveTo(st1, k))
  }

  /** The owner is the cursor's parent, cast to the root; afterwards the
      cursor is reset to the type's parent, the root. */
  function VisitType(st: State, s: Stmt): (r: Result<State>)
    requires Valid(st) && s.TypeDef?
    ensures ParentOf(st.arena[st.cursor]).None? ==> r == Throw(NullReference)
    ensures ParentOf(st.arena[st.cursor]).Some? && ParentOf(st.arena[st.cursor]).value != RootRef ==> r == Throw(InvalidCast)
    ensures ParentOf(st.arena[st.cursor]) == Some(RootRef) && s.typeDecl.name in RootTypes(st.arena) ==>
      r == Throw(DuplicateKey(s.typeDecl.name))
    ensures r.Ok? ==> Visited(st, s, r.value)
    decreases s, 0
  {
    var parent := ParentOf(st.arena[st.cursor]);
    if parent.None? then Throw(NullReference)
    else if (assert Fits(st.arena[st.cursor], st.cursor); !st.arena[parent.value].ProgramRoot?) then
      assert Fits(st.arena[RootRef], RootRef);
      Throw(InvalidCast)
    else
      assert Fits(st.arena[parent.value], parent.value);
      var st1 :- DeclareType(st, s.typeDecl);
      var st2 :- VisitStatements(st1, s.typeDecl.members);
      ExtendsTransitive(st.arena, st1.arena, st2.arena);
      EvolvesKeepsShape(st1.arena[|st.arena|], st2.arena[|st.arena|]);
      FieldsKeptTransitive(st.arena, st1.arena, st2.arena, None, Some(st1.cursor), None);
      assert !IsSymbolWithAStatement(st1.arena[st1.cursor]);
      assert Emitted(IsSymbolWithAStatement(st.arena[st.cursor]), s) == EmittedAll(s.typeDecl.members);
      Ok(MoveTo(st2, RootRef))
  }

  /** A field of the type under the cursor, or else a local variable; the
      initializer is visited under the new symbol. */
  function VisitField(st: State, s: Stmt): (r: Result<State>)
    requires Valid(st) && s.FieldDef?
    ensures r.Throw? <==> st.arena[st.cursor].TypeNode? && s.field.name in st.arena[st.cursor].t.fields.items
    ensures r.Throw? ==> r.exception == DuplicateKey(s.field.name)
    ensures r.Ok? ==> Visited(st, s, r.value)
  {
    if st.arena[st.cursor].TypeNode? then VisitTypeField(st, s.field) else VisitVariable(st, s.field)
  }

  /** `type.Fields.Add(name, field)` for a field symbol built under the type,
      which then becomes the cursor. */
  function DeclareField(st: State, f: FieldDecl): (r: Result<State>)
    requires Valid(st) && st.arena[st.cursor].TypeNode?
    ensures r.Throw? <==> f.name in st.arena[st.cursor].t.fields.items
    ensures r.Throw? ==> r.exception == DuplicateKey(f.name)
    ensures r.Ok? ==> Valid(r.value) && r.value.cursor == |st.arena| && r.value.diagnostics == st.diagnostics
    ensures r.Ok? ==> var a, c, k := r.value.arena, st.cursor, |st.arena|;
      && |a| == k + 1 && a[k] == FieldNode(c, f, None)
      && a[c].TypeNode? && AddField(st.arena[c].t, f.name, k) == Some(a[c].t)
      && (forall i :: 0 <= i < k && i != c ==> a[i] == st.arena[i])
  {
    var c, k := st.cursor, |st.arena|;
    match AddField(st.arena[c].t, f.name, k)
    case None => Throw(DuplicateKey(f.name))
    case Some(t') =>
      assert Fits(st.arena[c], c);
      Ok(Put(Enter(st, FieldNode(c, f, None)), c, TypeNode(t')))
  }

  /** A field of a type: listed after the type's earlier fields; nothing else
      about the type changes. */
  function VisitTypeField(st: State, f: FieldDecl): (r: Result<State>)
    requires Valid(st) && st.arena[st.cursor].TypeNode?
    ensures r.Throw? <==> f.name in st.arena[st.cursor].t.fields.items
    ensures r.Throw? ==> r.exception == DuplicateKey(f.name)
    ensures r.Ok? ==> Visited(st, FieldDef(f), r.value)
  {
    var c, k := st.cursor, |st.arena|;
    var st1 :- DeclareField(st, f);
    var (st2, init) := VisitOptional(st1, f.initValue);
    var st3 := Leave(st2, k, FieldNode(c, f, init), c);
    assert Extends(st.arena, st3.arena) by {
      forall i | 0 <= i < k
        ensures Evolves(st.arena[i], st3.arena[i])
      {
        assert st3.arena[i] == st1.arena[i];
        if i != c {
          EvolvesReflexive(st.arena[i]);
        }
      }
    }
    assert FieldsKept(st.arena, st3.arena, Some(c)) by {
      forall i | 0 <= i < k && i != c
        ensures st3.arena[i] == st.arena[i]
      {
        assert st3.arena[i] == st1.arena[i];
      }
    }
    Ok(st3)
  }

  /** A local variable: built under the cursor; no dictionary changes. A
      diagnostic follows when the cursor is a single-statement body. */
  function VisitVariable(st: State, f: FieldDecl): (r: Result<State>)
    requires Valid(st) && !st.arena[st.cursor].TypeNode?
    ensures r.Ok? && Visited(st, FieldDef(f), r.value)
  {
    var c, k := st.cursor, |st.arena|;
    var (st1, init) := VisitOptional(Enter(st, VariableNode(c, f, None)), f.initValue);
    var st2 := Leave(st1, k, VariableNode(c, f, init), c);
    KeepsExtends(st.arena, st2.arena);
    KeepsFieldsKept(st.arena, st2.arena);
    if IsSymbolWithAStatement(st.arena[c]) then Ok(Emit(st2, FieldSingleStatement(f))) else Ok(st2)
  }

  function VisitBlock(st: State, s: Stmt): (r: Result<State>)
    requires Valid(st) && s.Block?
    ensures r.Ok? ==> Visited(st, s, r.value)
    decreases s, 0
  {
    var st0 := Enter(st, BlockNode(st.cursor));
    var st1 :- VisitStatements(st0, s.statements);
    KeepsExtends(st.arena, st0.arena);
    ExtendsTransitive(st.arena, st0.arena, st1.arena);
    EvolvesKeepsShape(st0.arena[|st.arena|], st1.arena[|st.arena|]);
    KeepsFieldsKept(st.arena, st0.arena);
    FieldsKeptTransitive(st.arena, st0.arena, st1.arena, None, Some(st0.cursor), None);
    assert Emitted(IsSymbolWithAStatement(st.arena[st.cursor]), s) == EmittedAll(s.statements);
    Ok(MoveTo(st1, st.cursor))
  }

  /** The cursor must be a statement (the cast); the selector must build an
      identifier (the second cast). */
  function VisitFieldAssignation(st: State, s: Stmt): (r: Result<State>)
    requires Valid(st) && s.FieldAssignation?
    ensures r.Throw? ==> r.exception == InvalidCast
    ensures r.Ok? <==> IsStatementSymbol(st.arena[st.cursor]) && s.fieldSelector.IdentifierValue?
    ensures r.Ok? ==> Visited(st, s, r.value)
  {
    var c, k := st.cursor, |st.arena|;
    if !IsStatementSymbol(st.arena[c]) then Throw(InvalidCast)
    else
      var (st1, owner) := VisitExpression(Enter(st, FieldAssignationNode(c, None, None)), s.fieldSelector);
      if !st1.arena[owner].IdentifierValueNode? then Throw(InvalidCast)
      else
        var (st2, value) := VisitExpression(Put(st1, k, FieldAssignationNode(c, Some(owner), None)), s.newFieldValue);
        var st3 := Leave(st2, k, FieldAssignationNode(c, Some(owner), Some(value)), c);
        KeepsExtends(st.arena, st3.arena);
        KeepsFieldsKept(st.arena, st3.arena);
        Ok(st3)
  }

  /** The if symbol, made the cursor, and its condition under it. */
  function IfHeader(st: State, s: Stmt): (st': State)
    requires Valid(st) && s.If?
    ensures Valid(st') && st'.cursor == |st.arena| && st'.diagnostics == st.diagnostics
    ensures |st'.arena| == |st.arena| + 1 + ExprSize(s.condition) && Keeps(st.arena, st'.arena)
    ensures st'.arena[|st.arena|] == IfNode(st.cursor, Some(|st.arena| + 1))
    ensures ParentOf(st'.arena[|st.arena| + 1]) == Some(|st.arena|)
  {
    var c, k := st.cursor, |st.arena|;
    var (st1, cond) := VisitExpression(Enter(st, IfNode(c, None)), s.condition);
    Put(st1, k, IfNode(c, Some(cond)))
  }

  /** The cursor must be a statement (the cast); condition and body are
      visited under the if symbol. */
  function VisitIf(st: State, s: Stmt): (r: Result<State>)
    requires Valid(st) && s.If?
    ensures !IsStatementSymbol(st.arena[st.cursor]) ==> r == Throw(InvalidCast)
    ensures r.Ok? ==> Visited(st, s, r.value)
    decreases s, 0
  {
    if !IsStatementSymbol(st.arena[st.cursor]) then Throw(InvalidCast)
    else
      var st1 := IfHeader(st, s);
      var st2 :- VisitStatement(st1, s.theStatement);
      IfVisitedFrom(st, s, st1, st2);
      Ok(MoveTo(st2, st.cursor))
  }

  /** The if symbol and its condition built into `st1`, then its body
      visited into `st2`, with the cursor put back, is a visit of the `if`. */
  lemma IfVisitedFrom(st: State, s: Stmt, st1: State, st2: State)
    requires Valid(st) && s.If? && IsStatementSymbol(st.arena[st.cursor]) && st1 == IfHeader(st, s)
    requires Visited(st1, s.theStatement, st2)
    ensures st.cursor < |st2.arena| && st.cursor != NumberTypeRef && Visited(st, s, st2.(cursor := st.cursor))
  {
    KeepsExtends(st.arena, st1.arena);
    ExtendsTransitive(st.arena, st1.arena, st2.arena);
    EvolvesKeepsShape(st1.arena[|st.arena|], st2.arena[|st.arena|]);
    KeepsFieldsKept(st.arena, st1.arena);
    FieldsKeptTransitive(st.arena, st1.arena, st2.arena, None,
      if s.theStatement.FieldDef? then Some(st1.cursor) else None, None);
    assert IsSymbolWithAStatement(st1.arena[st1.cursor]);
    assert Emitted(IsSymbolWithAStatement(st.arena[st.cursor]), s) == Emitted(true, s.theStatement);
  }

  function VisitReturn(st: State, s: Stmt): (r: Result<State>)
    requires Valid(st) && s.Return?
    ensures r.Ok? && Visited(st, s, r.value)
  {
    var c, k := st.cursor, |st.arena|;
    var (st1, value) := VisitOptional(Enter(st, ReturnNode(c, None)), s.returnedValue);
    var st2 := Leave(st1, k, ReturnNode(c, value), c);
    KeepsExtends(st.arena, st2.arena);
    KeepsFieldsKept(st.arena, st2.arena);
    Ok(st2)
  }

  function VisitMethodCallStatement(st: State, s: Stmt): (r: Result<State>)
    requires Valid(st) && s.MethodCallStatement?
    ensures r.Ok? && Visited(st, s, r.value)
  {
    var c, k := st.cursor, |st.arena|;
    var (st1, call) := VisitExpression(Enter(st, MethodCallStatementNode(c, None)), s.methodCallExpression);
    var st2 := Leave(st1, k, MethodCallStatementNode(c, Some(call)), c);
    KeepsExtends(st.arena, st2.arena);
    KeepsFieldsKept(st.arena, st2.arena);
    Ok(st2)
  }

  // The pass.

  /** A fresh root holding only the built-in number type, and the cursor on it. */
  function InitialState(channel: seq<Diagnostic>): (st: State)
    ensures Valid(st) && st.cursor == RootRef && st.diagnostics == channel
    ensures |st.arena| == 2 && RootTypes(st.arena) == map[NumberTypeName := NumberTypeRef]
  {
    State([ProgramRoot(map[NumberTypeName := NumberTypeRef], map[]), BuiltinType(NumberTypeName)], RootRef, channel)
  }

  /** `Visit(Ast)`: the top-level statements form a block under the root; the
      cursor is cleared afterwards, so only the graph remains. The built-in
      type is registered before anything else and stays registered. */
  function VisitProgram(p: Program, channel: seq<Diagnostic>): (r: Result<Graph>)
    ensures r.Ok? ==> WellFormed(r.value.arena) && |r.value.arena| == 3 + StmtsSize(p.statements)
    ensures r.Ok? ==> NumberTypeName in RootTypes(r.value.arena) && RootTypes(r.value.arena)[NumberTypeName] == NumberTypeRef
    ensures r.Ok? ==> r.value.arena[NumberTypeRef] == BuiltinType(NumberTypeName)
    ensures r.Ok? ==> r.value.diagnostics == channel + EmittedAll(p.statements)
  {
    var st0 := InitialState(channel);
    var st :- VisitStatement(st0, Block(p.statements));
    assert Fits(st.arena[RootRef], RootRef);
    EvolvesKeepsShape(st0.arena[RootRef], st.arena[RootRef]);
    assert Emitted(false, Block(p.statements)) == EmittedAll(p.statements);
    assert Evolves(st0.arena[NumberTypeRef], st.arena[NumberTypeRef]);
    Ok(Graph(st.arena, st.diagnostics))
  }
}
