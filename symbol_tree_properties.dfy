/** What each visit builds, stated about the functions of `SymbolTree`, and
    what whole passes do: the order of arguments and fields, where the cursor
    ends up, which programs abort, and which diagnostics come out. */
module SymbolTreeProperties {
  import opened Common
  import Collections
  import opened Ast
  import TypeSymbols
  import opened SymbolGraph
  import opened SymbolTree

  // Expressions.

  lemma {:induction false} ExprsSizeAppend(es: seq<Expr>, e: Expr)
    ensures ExprsSize(es + [e]) == ExprsSize(es) + ExprSize(e)
    decreases |es|
  {
    if es == [] {
      assert [] + [e] == [e];
      assert [e][1..] == [];
    } else {
      assert (es + [e])[0] == es[0];
      assert (es + [e])[1..] == es[1..] + [e];
      ExprsSizeAppend(es[1..], e);
    }
  }

  /** A longer prefix of an argument list holds more syntax nodes. */
  lemma {:induction false} ExprsSizePrefixGrows(es: seq<Expr>, i: nat, j: nat)
    requires i < j <= |es|
    ensures ExprsSize(es[..i]) < ExprsSize(es[..j])
    decreases j
  {
    assert es[..j] == es[..j - 1] + [es[j - 1]];
    ExprsSizeAppend(es[..j - 1], es[j - 1]);
    assert ExprSize(es[j - 1]) > 0;
    if i < j - 1 {
      ExprsSizePrefixGrows(es, i, j - 1);
    }
  }

  /** `Arguments.Select(Visit).ToList()`: one symbol per argument, in source
      order, each built after the call symbol and owned by it. */
  lemma FuncCallArgumentsInSourceOrder(st: State, e: Expr)
    requires Valid(st) && e.FuncCall?
    ensures var r := VisitFuncCall(st, e); var call := r.0.arena[r.1];
      && call.FunctionCallNode? && call.callAst == e && call.arguments.Some?
      && |call.arguments.value| == |e.arguments|
      && (forall i :: 0 <= i < |e.arguments| ==>
            r.1 < call.arguments.value[i] < |r.0.arena| && ParentOf(r.0.arena[call.arguments.value[i]]) == Some(r.1))
      && (forall i, j :: 0 <= i < j < |e.arguments| ==> call.arguments.value[i] < call.arguments.value[j])
  {
    var r := VisitFuncCall(st, e);
    var refs := r.0.arena[r.1].arguments.value;
    forall i, j | 0 <= i < j < |e.arguments|
      ensures refs[i] < refs[j]
    {
      ExprsSizePrefixGrows(e.arguments, i, j);
    }
  }

  /** `Visit(Operator)`: the left operand is built first, under the outer
      cursor, and then dropped; the call's only argument is the right
      operand's symbol, built under the call. */
  lemma OperatorDropsLeftOperand(st: State, e: Expr)
    requires Valid(st) && e.Operator?
    ensures var r := VisitOperator(st, e); var a, k := r.0.arena, r.1; var right := k + 1 + ExprSize(e.left);
      && a[k] == FunctionCallNode(st.cursor, e, Some([right]))
      && k + 1 != right
      && ParentOf(a[k + 1]) == Some(st.cursor)
      && ParentOf(a[right]) == Some(k)
  {
    var c, k := st.cursor, |st.arena|;
    var st1 := Alloc(st, FunctionCallNode(c, e, None));
    var (st2, left) := VisitExpression(st1, e.left);
    var (st3, right) := VisitExpression(MoveTo(st2, k), e.right);
    var st4 := Leave(st3, k, FunctionCallNode(c, e, Some([right])), c);
    assert VisitOperator(st, e) == (st4, k);
    assert left == k + 1 && ParentOf(st2.arena[left]) == Some(c);
    assert st3.arena[left] == st2.arena[left];
    assert st4.arena[left] == st2.arena[left];
    assert right == k + 1 + ExprSize(e.left) && ParentOf(st3.arena[right]) == Some(k);
    assert st4.arena[right] == st3.arena[right];
  }

  // Declarations.

  /** Statements that declare methods or types: the only ones that can move
      the cursor. */
  predicate NoDeclarations(ss: seq<Stmt>) {
    forall i :: 0 <= i < |ss| ==> !ss[i].TypeDef? && !ss[i].MethodDef?
  }

  predicate NoTypes(ss: seq<Stmt>) {
    forall i :: 0 <= i < |ss| ==> !ss[i].TypeDef?
  }

  /** A method cannot be declared where no owner applies, and a type cannot
      be declared where the cursor's parent is not the root. */
  lemma DeclarationOutOfPlaceThrows(st: State, s: Stmt)
    requires Valid(st)
    ensures s.MethodDef? && MethodOwner(st.arena, st.cursor).Throw? ==> VisitStatement(st, s).Throw?
    ensures s.TypeDef? && ParentOf(st.arena[st.cursor]) != Some(RootRef) ==> VisitStatement(st, s).Throw?
  {
    if s.MethodDef? {
      assert VisitStatement(st, s) == VisitMethod(st, s);
    } else if s.TypeDef? {
      assert VisitStatement(st, s) == VisitType(st, s);
    }
  }

  /** The parameters of a list are visited without an exception exactly when
      there are none, or the cursor is a method, no two of them share a name
      and none is already registered in the method. */
  lemma {:induction false} ParametersSucceed(st: State, ps: seq<Parameter>)
    requires Valid(st)
    ensures VisitParameters(st, ps).Ok? <==>
      ps == [] || (st.arena[st.cursor].MethodNode? && DistinctParameterNames(ps)
        && ParameterNames(ps) !! st.arena[st.cursor].parameterSymbols.Keys)
    decreases ps
  {
    if ps != [] && st.arena[st.cursor].MethodNode? {
      var r1 := VisitParameter(st, ps[0]);
      if r1.Ok? {
        ParametersSucceed(r1.value, ps[1..]);
        DistinctParameterNamesStep(ps);
      }
    }
  }

  /** Declaring a method and its parameters throws exactly when the owner
      already has a method of that name or two parameters share a name. */
  lemma DeclareMethodSucceeds(st: State, owner: Ref, m: MethodDecl)
    requires Valid(st) && owner < |st.arena| && IsSymbolWithMethods(st.arena[owner])
    ensures DeclareMethod(st, owner, m).Ok? <==>
      m.name !in MethodsOf(st.arena[owner]) && DistinctParameterNames(m.parameters)
  {
    var k := |st.arena|;
    assert Fits(st.arena[NumberTypeRef], NumberTypeRef);
    var st0 := Alloc(st, MethodNode(owner, m, map[], None));
    assert st0.arena[owner] == st.arena[owner];
    var r1 := RegisterMethod(st0, owner, m.name, k);
    if r1.Ok? {
      ParametersSucceed(MoveTo(r1.value, k), m.parameters);
    }
  }

  /** `Visit(Method)`: the method is registered under its name in the owner
      the cursor selects, and is owned by it; the cursor ends on the owner. */
  lemma MethodBuilt(st: State, s: Stmt)
    requires Valid(st) && s.MethodDef?
    ensures var r := VisitMethod(st, s); r.Ok? ==>
      var a, owner, k, m := r.value.arena, r.value.cursor, |st.arena|, s.methodDecl;
      && MethodOwner(st.arena, st.cursor) == Ok(owner)
      && m.name !in MethodsOf(st.arena[owner])
      && IsSymbolWithMethods(a[owner]) && m.name in MethodsOf(a[owner]) && MethodsOf(a[owner])[m.name] == k
      && a[k].MethodNode? && a[k].parent == owner && a[k].methodAst == m && a[k].returnType.None?
      && ParameterNames(m.parameters) <= a[k].parameterSymbols.Keys
  {
    var r := VisitMethod(st, s);
    if r.Ok? {
      var owner := MethodOwner(st.arena, st.cursor).value;
      var st1 := DeclareMethod(st, owner, s.methodDecl).value;
      var st2 := VisitStatement(st1, s.methodDecl.body).value;
      EvolvesKeepsShape(st1.arena[owner], st2.arena[owner]);
      EvolvesKeepsShape(st1.arena[|st.arena|], st2.arena[|st.arena|]);
    }
  }

  /** `Visit(Method)`, below the method: the body is visited with the
      method as cursor, so it is never itself a method, and, unless it is a
      type, its symbol, the first after the parameters, is owned by the
      method. */
  lemma BodyUnderMethod(st: State, s: Stmt, st': State)
    requires Valid(st) && st.arena[st.cursor].MethodNode? && VisitStatement(st, s) == Ok(st')
    ensures !s.MethodDef?
    ensures |st.arena| < |st'.arena| && (!s.TypeDef? ==> ParentOf(st'.arena[|st.arena|]) == Some(st.cursor))
  {
    assert MethodOwner(st.arena, st.cursor).Throw?;
  }

  /** `Visit(Type)`: the type is owned by the root, registered in it under its
      name, and keeps the identity it was built with; its constructor slot is
      still unset. When no member is itself a type, every member's symbol is
      owned by the type, in source order, and the type's fields are exactly
      its field members, in declaration order. */
  lemma TypeBuilt(st: State, s: Stmt)
    requires Valid(st) && s.TypeDef?
    ensures var r := VisitType(st, s); r.Ok? ==> var a, k, t := r.value.arena, |st.arena|, s.typeDecl;
      && ParentOf(st.arena[st.cursor]) == Some(RootRef)
      && t.name !in RootTypes(st.arena)
      && a[k].TypeNode? && a[k].t.parent == RootRef && a[k].t.ast == t && a[k].t.name == t.name && a[k].t.ctor.None?
      && t.name in RootTypes(a) && RootTypes(a)[t.name] == k
      && (NoTypes(t.members) ==>
            && OwnedInOrder(a, k, k + 1, t.members)
            && a[k].t.fields.keys == FieldNames(t.members) && Collections.Valid(a[k].t.fields))
  {
    if VisitType(st, s).Ok? {
      var st1 := TypeOk(st, s);
      DeclaredFacts(st, s.typeDecl, st1);
      var st2 := MembersArena(st1, s.typeDecl, |st.arena|);
    }
  }

  /** A successful type declaration was declared at the root and then visited its members. */
  lemma TypeOk(st: State, s: Stmt) returns (st1: State)
    requires Valid(st) && s.TypeDef? && VisitType(st, s).Ok?
    ensures ParentOf(st.arena[st.cursor]) == Some(RootRef) && s.typeDecl.name !in RootTypes(st.arena)
    ensures DeclareType(st, s.typeDecl) == Ok(st1) && VisitStatements(st1, s.typeDecl.members).Ok?
    ensures VisitType(st, s).value.arena == VisitStatements(st1, s.typeDecl.members).value.arena
  {
    st1 := DeclareType(st, s.typeDecl).value;
  }

  /** The state a type declaration leaves: the new type symbol under the cursor, registered at the root. */
  lemma DeclaredFacts(st: State, t: TypeDecl, st1: State)
    requires Valid(st) && DeclareType(st, t) == Ok(st1)
    ensures Valid(st1) && |st1.arena| == |st.arena| + 1 && st1.cursor == |st.arena|
    ensures st1.arena[|st.arena|] == TypeNode(TypeSymbols.NewTypeSymbol(RootRef, t))
    ensures t.name in RootTypes(st1.arena) && RootTypes(st1.arena)[t.name] == |st.arena|
  {
  }

  /** Visiting the members of a freshly declared type at `k`: the type keeps
      its identity and registration, and when no member is a type, owns its
      members in order and lists its field members in declaration order. */
  lemma MembersArena(st1: State, t: TypeDecl, k: nat) returns (st2: State)
    requires Valid(st1) && |st1.arena| == k + 1 && st1.cursor == k && st1.arena[k] == TypeNode(TypeSymbols.NewTypeSymbol(RootRef, t))
    requires t.name in RootTypes(st1.arena) && RootTypes(st1.arena)[t.name] == k
    requires VisitStatements(st1, t.members).Ok?
    ensures VisitStatements(st1, t.members) == Ok(st2)
    ensures st2.arena[k].TypeNode? && st2.arena[k].t.parent == RootRef && st2.arena[k].t.ast == t
    ensures st2.arena[k].t.name == t.name && st2.arena[k].t.ctor.None?
    ensures t.name in RootTypes(st2.arena) && RootTypes(st2.arena)[t.name] == k
    ensures NoTypes(t.members) ==>
      && OwnedInOrder(st2.arena, k, k + 1, t.members)
      && st2.arena[k].t.fields.keys == FieldNames(t.members) && Collections.Valid(st2.arena[k].t.fields)
  {
    st2 := VisitStatements(st1, t.members).value;
    TypeKept(st1.arena, st2.arena, k, t);
    if NoTypes(t.members) {
      MembersOrdered(st1, t, k);
    }
  }

  /** A type symbol registered at the root keeps its identity and its
      registration while the arena evolves. */
  lemma TypeKept(a1: seq<Symbol>, a2: seq<Symbol>, k: nat, t: TypeDecl)
    requires WellFormed(a1) && WellFormed(a2) && Extends(a1, a2) && k < |a1|
    requires a1[k] == TypeNode(TypeSymbols.NewTypeSymbol(RootRef, t))
    requires t.name in RootTypes(a1) && RootTypes(a1)[t.name] == k
    ensures a2[k].TypeNode? && a2[k].t.parent == RootRef && a2[k].t.ast == t
    ensures a2[k].t.name == t.name && a2[k].t.ctor.None?
    ensures t.name in RootTypes(a2) && RootTypes(a2)[t.name] == k
  {
    assert Evolves(a1[k], a2[k]);
    assert Evolves(a1[RootRef], a2[RootRef]) && Fits(a1[RootRef], RootRef);
    EvolvesKeepsShape(a1[RootRef], a2[RootRef]);
    assert RootTypes(a1) == a1[RootRef].types && RootTypes(a2) == a2[RootRef].types;
  }

  /** The members of a freshly declared type at `k`, none of them a type:
      owned by the type in order, and its field members listed in
      declaration order. */
  lemma MembersOrdered(st1: State, t: TypeDecl, k: nat)
    requires Valid(st1) && |st1.arena| == k + 1 && st1.cursor == k && st1.arena[k] == TypeNode(TypeSymbols.NewTypeSymbol(RootRef, t))
    requires NoTypes(t.members) && VisitStatements(st1, t.members).Ok?
    ensures var a := VisitStatements(st1, t.members).value.arena;
      && OwnedInOrder(a, k, k + 1, t.members)
      && a[k].TypeNode? && a[k].t.fields.keys == FieldNames(t.members) && Collections.Valid(a[k].t.fields)
  {
    FieldsInDeclarationOrder(st1, t.members);
    assert [] + FieldNames(t.members) == FieldNames(t.members);
  }

  /** `Visit(Field)` under a type: a field symbol owned by the type, appended
      to the type's ordered fields; nothing else changes, and the initializer
      is built under the field exactly when there is one. */
  lemma TypeFieldBuilt(st: State, f: FieldDecl)
    requires Valid(st) && st.arena[st.cursor].TypeNode?
    ensures var r := VisitTypeField(st, f); r.Ok? ==> var a, c, k := r.value.arena, st.cursor, |st.arena|;
      && a[c].TypeNode? && TypeSymbols.SameIdentity(st.arena[c].t, a[c].t) && a[c].t.methods == st.arena[c].t.methods
      && a[c].t.fields.keys == st.arena[c].t.fields.keys + [f.name]
      && a[c].t.fields.items == st.arena[c].t.fields.items[f.name := k]
      && (forall i :: 0 <= i < k && i != c ==> a[i] == st.arena[i])
      && a[k].FieldNode? && a[k].parent == c && a[k].fieldAst == f && ChildBuilt(a, k, a[k].initValue, f.initValue)
  {
    var r := VisitTypeField(st, f);
    if r.Ok? {
      var c, k := st.cursor, |st.arena|;
      var st1 := DeclareField(st, f).value;
      var (st2, init) := VisitOptional(st1, f.initValue);
      assert r.value.arena == st2.arena[k := FieldNode(c, f, init)];
      assert r.value.arena[c] == st1.arena[c];
    }
  }

  /** `Visit(Field)` anywhere else: a variable symbol owned by the cursor; no
      earlier symbol changes; the initializer is built under the variable
      exactly when there is one; one diagnostic exactly when the cursor is a
      single-statement body. */
  lemma VariableBuilt(st: State, f: FieldDecl)
    requires Valid(st) && !st.arena[st.cursor].TypeNode?
    ensures var r := VisitVariable(st, f); r.Ok? && var a, c, k := r.value.arena, st.cursor, |st.arena|;
      && Keeps(st.arena, a)
      && a[k].VariableNode? && a[k].parent == c && a[k].fieldAst == f && ChildBuilt(a, k, a[k].initValue, f.initValue)
      && r.value.diagnostics == st.diagnostics + (if IsSymbolWithAStatement(st.arena[c]) then [FieldSingleStatement(f)] else [])
  {
    var c, k := st.cursor, |st.arena|;
    var (st1, init) := VisitOptional(Enter(st, VariableNode(c, f, None)), f.initValue);
    assert VisitVariable(st, f).value.arena == st1.arena[k := VariableNode(c, f, init)];
  }

  // Statements.

  /** In a block that is not directly under the root no statement can
      declare a method or a type, so the cursor stays on the block. */
  lemma {:induction false} NestedBlockKeepsCursor(st: State, ss: seq<Stmt>)
    requires Valid(st) && st.arena[st.cursor].BlockNode? && st.arena[st.cursor].parent != RootRef
    ensures var r := VisitStatements(st, ss); r.Ok? ==> r.value.cursor == st.cursor && NoDeclarations(ss)
    decreases ss
  {
    if ss != [] {
      StatementsStep(st, ss);
      var r1 := VisitStatement(st, ss[0]);
      if r1.Ok? {
        DeclarationOutOfPlaceThrows(st, ss[0]);
        assert Evolves(st.arena[st.cursor], r1.value.arena[st.cursor]);
        NestedBlockKeepsCursor(r1.value, ss[1..]);
        if VisitStatements(r1.value, ss[1..]).Ok? {
          forall i | 0 <= i < |ss|
            ensures !ss[i].TypeDef? && !ss[i].MethodDef?
          {
            if i > 0 {
              assert ss[i] == ss[1..][i - 1];
            }
          }
        }
      }
    }
  }

  /** The first statement of a successful visit of statements, unless a
      declaration, is owned by the starting cursor `c`; its symbol is at `j`,
      the first free index. */
  lemma FirstOwned(st0: State, ss: seq<Stmt>, st1: State, c: Ref, j: nat)
    requires Valid(st0) && VisitStatements(st0, ss) == Ok(st1) && c == st0.cursor && j == |st0.arena|
    requires ss != [] && !ss[0].TypeDef? && !ss[0].MethodDef?
    ensures j < |st1.arena| && ParentOf(st1.arena[j]) == Some(c)
  {
    StatementsStep(st0, ss);
    var st' := VisitStatement(st0, ss[0]).value;
    FirstStatementOwned(st0, ss, st', st1);
  }

  /** The statements of a block not directly under the root declare nothing
      and are owned by the block, in source order from `j`, the first free
      index. */
  lemma NestedOwned(st0: State, ss: seq<Stmt>, st1: State, c: Ref, j: nat)
    requires Valid(st0) && VisitStatements(st0, ss) == Ok(st1) && c == st0.cursor && j == |st0.arena|
    requires st0.arena[c].BlockNode? && st0.arena[c].parent != RootRef
    ensures NoDeclarations(ss) && OwnedInOrder(st1.arena, c, j, ss)
  {
    NestedBlockKeepsCursor(st0, ss);
  }

  /** A successful block visited its statements from the state that entered
      the block symbol, and ends in the arena they end in. */
  lemma BlockOk(st: State, s: Stmt)
    requires Valid(st) && s.Block? && VisitBlock(st, s).Ok?
    ensures VisitStatements(Enter(st, BlockNode(st.cursor)), s.statements).Ok?
    ensures VisitBlock(st, s).value.arena == VisitStatements(Enter(st, BlockNode(st.cursor)), s.statements).value.arena
  {
  }

  /** The arena the statements of a block end in, once the block symbol is
      entered under the cursor: the block symbol, then its first statement's. */
  lemma BlockEntered(st: State, ss: seq<Stmt>, k: nat) returns (st1: State)
    requires Valid(st) && k == |st.arena| && VisitStatements(Enter(st, BlockNode(st.cursor)), ss).Ok?
    ensures VisitStatements(Enter(st, BlockNode(st.cursor)), ss) == Ok(st1)
    ensures k < |st1.arena| && st1.arena[k] == BlockNode(st.cursor)
    ensures ss != [] && !ss[0].TypeDef? && !ss[0].MethodDef? ==> k + 1 < |st1.arena| && ParentOf(st1.arena[k + 1]) == Some(k)
  {
    var st0 := Enter(st, BlockNode(st.cursor));
    EnteredBlock(st, st0);
    st1 := BlockStatementsArena(st0, ss, st.cursor, k);
  }

  /** The same arena, for a block not directly under the root: its statements
      declare nothing and are owned by the block, in source order. */
  lemma NestedBlockEntered(st: State, ss: seq<Stmt>) returns (st1: State)
    requires Valid(st) && st.cursor != RootRef && VisitStatements(Enter(st, BlockNode(st.cursor)), ss).Ok?
    ensures VisitStatements(Enter(st, BlockNode(st.cursor)), ss) == Ok(st1)
    ensures NoDeclarations(ss) && OwnedInOrder(st1.arena, |st.arena|, |st.arena| + 1, ss)
  {
    var st0 := Enter(st, BlockNode(st.cursor));
    EnteredBlock(st, st0);
    st1 := BlockStatementsArena(st0, ss, st.cursor, |st.arena|);
  }

  /** Entering a block symbol: it is appended under the cursor and becomes the cursor. */
  lemma EnteredBlock(st: State, st0: State)
    requires Valid(st) && st0 == Enter(st, BlockNode(st.cursor))
    ensures Valid(st0) && |st0.arena| == |st.arena| + 1 && st0.cursor == |st.arena|
    ensures st0.arena[|st.arena|] == BlockNode(st.cursor)
  {
  }

  /** The arena the statements of block `k` under `c` end in. */
  lemma BlockStatementsArena(st0: State, ss: seq<Stmt>, c: Ref, k: nat) returns (st1: State)
    requires Valid(st0) && |st0.arena| == k + 1 && st0.cursor == k && st0.arena[k] == BlockNode(c)
    requires VisitStatements(st0, ss).Ok?
    ensures VisitStatements(st0, ss) == Ok(st1)
    ensures k < |st1.arena| && st1.arena[k] == BlockNode(c)
    ensures ss != [] && !ss[0].TypeDef? && !ss[0].MethodDef? ==> k + 1 < |st1.arena| && ParentOf(st1.arena[k + 1]) == Some(k)
    ensures c != RootRef ==> NoDeclarations(ss) && OwnedInOrder(st1.arena, k, k + 1, ss)
  {
    st1 := VisitStatements(st0, ss).value;
    BlockStatementsOwned(st0, ss, st1, c, k);
  }

  /** The block symbol `k` under `c` entered into `st0`, then its statements
      visited into `st1`: the facts `BlockBuilt` and `NestedBlockBuilt` state, about `st1`'s arena. */
  lemma BlockStatementsOwned(st0: State, ss: seq<Stmt>, st1: State, c: Ref, k: nat)
    requires Valid(st0) && |st0.arena| == k + 1 && st0.cursor == k && st0.arena[k] == BlockNode(c)
    requires VisitStatements(st0, ss) == Ok(st1)
    ensures k < |st1.arena| && st1.arena[k] == BlockNode(c)
    ensures ss != [] && !ss[0].TypeDef? && !ss[0].MethodDef? ==> k + 1 < |st1.arena| && ParentOf(st1.arena[k + 1]) == Some(k)
    ensures c != RootRef ==> NoDeclarations(ss) && OwnedInOrder(st1.arena, k, k + 1, ss)
  {
    assert Evolves(st0.arena[k], st1.arena[k]);
    if ss != [] && !ss[0].TypeDef? && !ss[0].MethodDef? {
      FirstOwned(st0, ss, st1, k, k + 1);
    }
    if c != RootRef {
      NestedOwned(st0, ss, st1, k, k + 1);
    }
  }

  /** `Visit(Block)`: the block symbol is owned by the cursor, and its first
      statement, unless a declaration, is owned by the block. */
  lemma BlockBuilt(st: State, s: Stmt)
    requires Valid(st) && s.Block?
    ensures var r := VisitBlock(st, s); r.Ok? ==> var a, k, ss := r.value.arena, |st.arena|, s.statements;
      && a[k] == BlockNode(st.cursor)
      && (ss != [] && !ss[0].TypeDef? && !ss[0].MethodDef? ==> k + 1 < |a| && ParentOf(a[k + 1]) == Some(k))
  {
    if VisitBlock(st, s).Ok? {
      BlockOk(st, s);
      var st1 := BlockEntered(st, s.statements, |st.arena|);
    }
  }

  /** `Visit(Block)` for a block not directly under the root: it declares no
      method or type, and every one of its statements is owned by it, in
      source order. */
  lemma NestedBlockBuilt(st: State, s: Stmt)
    requires Valid(st) && s.Block? && st.cursor != RootRef
    ensures var r := VisitBlock(st, s); r.Ok? ==>
      NoDeclarations(s.statements) && OwnedInOrder(r.value.arena, |st.arena|, |st.arena| + 1, s.statements)
  {
    if VisitBlock(st, s).Ok? {
      BlockOk(st, s);
      var st1 := NestedBlockEntered(st, s.statements);
    }
  }

  /** `Visit(FieldAssignation)`: an assignment under the cursor whose owner
      slot holds the selector's identifier, built first under the assignment,
      and whose value slot holds the new value's symbol, built next under it. */
  lemma FieldAssignationBuilt(st: State, s: Stmt)
    requires Valid(st) && s.FieldAssignation?
    ensures var r := VisitFieldAssignation(st, s); r.Ok? ==>
      var a, k := r.value.arena, |st.arena|; var value := k + 1 + ExprSize(s.fieldSelector);
      && Keeps(st.arena, a)
      && a[k] == FieldAssignationNode(st.cursor, Some(k + 1), Some(value))
      && a[k + 1].IdentifierValueNode? && ParentOf(a[k + 1]) == Some(k) && ParentOf(a[value]) == Some(k)
  {
    var r := VisitFieldAssignation(st, s);
    if r.Ok? {
      var c, k := st.cursor, |st.arena|;
      var (st1, owner) := VisitExpression(Enter(st, FieldAssignationNode(c, None, None)), s.fieldSelector);
      var (st2, value) := VisitExpression(Put(st1, k, FieldAssignationNode(c, Some(owner), None)), s.newFieldValue);
      assert r.value.arena == st2.arena[k := FieldAssignationNode(c, Some(owner), Some(value))];
      assert r.value.arena[owner] == st1.arena[owner];
    }
  }

  /** `Visit(If)`: the if symbol is built under the cursor, and its condition
      slot holds the condition's symbol, built right after it under it; the
      body, visited next, is owned by the if symbol too (a method or a type
      cannot be the body of an `if`). */
  lemma IfBuilt(st: State, s: Stmt)
    requires Valid(st) && s.If?
    ensures var r := VisitIf(st, s); r.Ok? ==> var a, k := r.value.arena, |st.arena|;
      && a[k] == IfNode(st.cursor, Some(k + 1)) && ParentOf(a[k + 1]) == Some(k)
      && !s.theStatement.TypeDef? && !s.theStatement.MethodDef?
      && ParentOf(a[k + 1 + ExprSize(s.condition)]) == Some(k)
  {
    if VisitIf(st, s).Ok? {
      var a := IfArena(st, s);
    }
  }

  /** The arena a successful `if` ends in, with the facts `IfBuilt` states. */
  lemma IfArena(st: State, s: Stmt) returns (a: seq<Symbol>)
    requires Valid(st) && s.If? && VisitIf(st, s).Ok?
    ensures VisitIf(st, s).value.arena == a
    ensures |st.arena| + 1 + ExprSize(s.condition) < |a|
    ensures a[|st.arena|] == IfNode(st.cursor, Some(|st.arena| + 1)) && ParentOf(a[|st.arena| + 1]) == Some(|st.arena|)
    ensures !s.theStatement.TypeDef? && !s.theStatement.MethodDef?
    ensures ParentOf(a[|st.arena| + 1 + ExprSize(s.condition)]) == Some(|st.arena|)
  {
    var st1 := IfHeader(st, s);
    IfOk(st, s, st1);
    IfBodyNotDeclaration(st, s, st1);
    HeaderFacts(st, s, st1);
    a := IfBodyArena(st.cursor, s, st1, |st.arena|);
  }

  /** The header of an `if`: its symbol, then its condition, with the cursor on it. */
  lemma HeaderFacts(st: State, s: Stmt, st1: State)
    requires Valid(st) && s.If? && st1 == IfHeader(st, s)
    ensures Valid(st1) && |st1.arena| == |st.arena| + 1 + ExprSize(s.condition) && st1.cursor == |st.arena|
    ensures st1.arena[|st.arena|] == IfNode(st.cursor, Some(|st.arena| + 1)) && ParentOf(st1.arena[|st.arena| + 1]) == Some(|st.arena|)
  {
  }

  lemma IfBodyArena(c: Ref, s: Stmt, st1: State, k: nat) returns (a: seq<Symbol>)
    requires Valid(st1) && s.If? && !s.theStatement.TypeDef? && !s.theStatement.MethodDef?
    requires |st1.arena| == k + 1 + ExprSize(s.condition) && st1.cursor == k
    requires st1.arena[k] == IfNode(c, Some(k + 1)) && ParentOf(st1.arena[k + 1]) == Some(k)
    requires VisitStatement(st1, s.theStatement).Ok?
    ensures VisitStatement(st1, s.theStatement).value.arena == a
    ensures k + 1 + ExprSize(s.condition) < |a|
    ensures a[k] == IfNode(c, Some(k + 1)) && ParentOf(a[k + 1]) == Some(k)
    ensures ParentOf(a[k + 1 + ExprSize(s.condition)]) == Some(k)
  {
    var st2 := BodyVisited(st1, s.theStatement);
    IfBodyShape(c, s, st1, st2, k);
    a := st2.arena;
  }

  /** A statement other than a declaration, visited successfully, ends in a
      longer arena that extends the one it started from, with the cursor back
      where it was and its own symbol placed under the cursor. */
  lemma BodyVisited(st: State, s: Stmt) returns (st': State)
    requires Valid(st) && VisitStatement(st, s).Ok? && !s.TypeDef? && !s.MethodDef?
    ensures VisitStatement(st, s) == Ok(st')
    ensures |st.arena| < |st'.arena| && Extends(st.arena, st'.arena)
    ensures st'.cursor == st.cursor && ParentOf(st'.arena[|st.arena|]) == Some(st'.cursor)
  {
    st' := VisitStatement(st, s).value;
  }

  /** A successful `if` visited its body from the header's state, and ends
      in the arena the body's visit ends in. */
  lemma IfOk(st: State, s: Stmt, st1: State)
    requires Valid(st) && s.If? && VisitIf(st, s).Ok? && st1 == IfHeader(st, s)
    ensures IsStatementSymbol(st.arena[st.cursor]) && VisitStatement(st1, s.theStatement).Ok?
    ensures VisitIf(st, s).value.arena == VisitStatement(st1, s.theStatement).value.arena
  {
  }

  /** The body of an `if` that is visited successfully declares neither a
      method nor a type. */
  lemma IfBodyNotDeclaration(st: State, s: Stmt, st1: State)
    requires Valid(st) && s.If? && IsStatementSymbol(st.arena[st.cursor]) && st1 == IfHeader(st, s)
    requires VisitStatement(st1, s.theStatement).Ok?
    ensures !s.theStatement.TypeDef? && !s.theStatement.MethodDef?
  {
    assert Fits(st.arena[RootRef], RootRef);
    DeclarationOutOfPlaceThrows(st1, s.theStatement);
  }

  /** The if symbol at `k` with its condition after it, then a body that is
      not a declaration visited into `st2`: the body is owned by the `if`. */
  lemma IfBodyShape(c: Ref, s: Stmt, st1: State, st2: State, k: nat)
    requires s.If? && |st1.arena| == k + 1 + ExprSize(s.condition) && st1.cursor == k
    requires st1.arena[k] == IfNode(c, Some(k + 1)) && ParentOf(st1.arena[k + 1]) == Some(k)
    requires |st1.arena| < |st2.arena| && Extends(st1.arena, st2.arena)
    requires st2.cursor == st1.cursor && ParentOf(st2.arena[|st1.arena|]) == Some(st2.cursor)
    ensures k + 1 + ExprSize(s.condition) < |st2.arena|
    ensures st2.arena[k] == IfNode(c, Some(k + 1)) && ParentOf(st2.arena[k + 1]) == Some(k)
    ensures ParentOf(st2.arena[k + 1 + ExprSize(s.condition)]) == Some(k)
  {
    EvolvesKeepsShape(st1.arena[k], st2.arena[k]);
    EvolvesKeepsShape(st1.arena[k + 1], st2.arena[k + 1]);
  }

  /** `Visit(Return)`: null returned value exactly when the syntax has none. */
  lemma ReturnBuilt(st: State, s: Stmt)
    requires Valid(st) && s.Return?
    ensures var r := VisitReturn(st, s); r.Ok? && var a, k := r.value.arena, |st.arena|;
      && Keeps(st.arena, a) && a[k].ReturnNode? && a[k].parent == st.cursor
      && ChildBuilt(a, k, a[k].returnedValue, s.returnedValue)
  {
    var c, k := st.cursor, |st.arena|;
    var (st1, value) := VisitOptional(Enter(st, ReturnNode(c, None)), s.returnedValue);
    assert VisitReturn(st, s).value.arena == st1.arena[k := ReturnNode(c, value)];
  }

  lemma MethodCallStatementBuilt(st: State, s: Stmt)
    requires Valid(st) && s.MethodCallStatement?
    ensures var r := VisitMethodCallStatement(st, s); r.Ok? && var a, k := r.value.arena, |st.arena|;
      && Keeps(st.arena, a) && a[k] == MethodCallStatementNode(st.cursor, Some(k + 1)) && ParentOf(a[k + 1]) == Some(k)
  {
    var c, k := st.cursor, |st.arena|;
    var (st1, call) := VisitExpression(Enter(st, MethodCallStatementNode(c, None)), s.methodCallExpression);
    assert VisitMethodCallStatement(st, s).value.arena == st1.arena[k := MethodCallStatementNode(c, Some(call))];
  }

  // Whole passes.

  /** A type symbol keeps its identity and only gains methods and fields
      (appended in order) while later symbols are visited. */
  lemma TypeIdentityIsFixed(a: seq<Symbol>, a': seq<Symbol>, i: Ref)
    requires Extends(a, a') && i < |a| && a[i].TypeNode?
    ensures a'[i].TypeNode? && TypeSymbols.SameIdentity(a[i].t, a'[i].t)
    ensures Collections.SubMap(a[i].t.methods, a'[i].t.methods) && Collections.OrderedGrows(a[i].t.fields, a'[i].t.fields)
  {
    assert Evolves(a[i], a'[i]);
  }

  predicate AllFields(ss: seq<Stmt>) {
    forall i :: 0 <= i < |ss| ==> ss[i].FieldDef?
  }

  /** The name a statement adds to the fields of the type it is a member of. */
  function FieldNameOf(s: Stmt): seq<string> {
    if s.FieldDef? then [s.field.name] else []
  }

  /** The names the field members of a list declare, in source order. */
  function FieldNames(ss: seq<Stmt>): seq<string> {
    if ss == [] then [] else FieldNameOf(ss[0]) + FieldNames(ss[1..])
  }

  /** One member of a type, other than a type: the cursor stays on the type,
      a field appends its name to the type's keys, which stay unique, and any
      other member leaves the fields alone. */
  lemma MemberStep(st: State, s: Stmt)
    requires Valid(st) && st.arena[st.cursor].TypeNode? && !s.TypeDef?
    ensures var r := VisitStatement(st, s); r.Ok? ==>
      && r.value.cursor == st.cursor && r.value.arena[st.cursor].TypeNode?
      && r.value.arena[st.cursor].t.fields.keys == st.arena[st.cursor].t.fields.keys + FieldNameOf(s)
      && (Collections.Valid(st.arena[st.cursor].t.fields) ==> Collections.Valid(r.value.arena[st.cursor].t.fields))
  {
    var r := VisitStatement(st, s);
    if r.Ok? {
      if s.FieldDef? {
        assert r == VisitTypeField(st, s.field);
        TypeFieldBuilt(st, s.field);
        var t, t1 := st.arena[st.cursor].t, r.value.arena[st.cursor].t;
        var added := TypeSymbols.AddField(t, s.field.name, |st.arena|);
        assert added.Some? && added.value.fields == t1.fields;
      } else {
        assert st.arena[st.cursor].t.fields.keys + [] == st.arena[st.cursor].t.fields.keys;
      }
    }
  }

  /** A list of statements runs its first statement, then the rest from where
      the first one left off. */
  lemma StatementsStep(st: State, ss: seq<Stmt>)
    requires Valid(st) && ss != []
    ensures VisitStatement(st, ss[0]).Throw? ==> VisitStatements(st, ss) == Throw(VisitStatement(st, ss[0]).exception)
    ensures VisitStatement(st, ss[0]).Ok? ==>
      VisitStatements(st, ss) == VisitStatements(VisitStatement(st, ss[0]).value, ss[1..])
  {
  }

  /** After visiting the members `ss` from `st` with the cursor on a type,
      with result `r`: the cursor is still the type, its ordered fields list
      the field names of `ss` in declaration order after the earlier ones,
      and unique keys stay unique. */
  ghost predicate FieldsListed(st: State, ss: seq<Stmt>, r: Result<State>)
    requires Valid(st) && st.arena[st.cursor].TypeNode?
  {
    r.Ok? ==>
      && |st.arena| <= |r.value.arena| && r.value.cursor == st.cursor && r.value.arena[st.cursor].TypeNode?
      && r.value.arena[st.cursor].t.fields.keys == st.arena[st.cursor].t.fields.keys + FieldNames(ss)
      && (Collections.Valid(st.arena[st.cursor].t.fields) ==> Collections.Valid(r.value.arena[st.cursor].t.fields))
  }

  /** One member, then the rest. */
  lemma FieldsListedStep(st: State, ss: seq<Stmt>, st1: State, r: Result<State>)
    requires Valid(st) && st.arena[st.cursor].TypeNode? && ss != []
    requires Valid(st1) && |st.arena| <= |st1.arena| && st1.cursor == st.cursor && st1.arena[st.cursor].TypeNode?
    requires st1.arena[st.cursor].t.fields.keys == st.arena[st.cursor].t.fields.keys + FieldNameOf(ss[0])
    requires Collections.Valid(st.arena[st.cursor].t.fields) ==> Collections.Valid(st1.arena[st.cursor].t.fields)
    requires FieldsListed(st1, ss[1..], r)
    ensures FieldsListed(st, ss, r)
  {
    if r.Ok? {
      var keys, first, rest := st.arena[st.cursor].t.fields.keys, FieldNameOf(ss[0]), FieldNames(ss[1..]);
      assert FieldNames(ss) == first + rest;
      assert keys + (first + rest) == (keys + first) + rest;
    }
  }

  /** The members of a type, visited one after another with the cursor on the
      type, leave the cursor there and list the type's fields in declaration
      order, provided no member is itself a type (which would move the cursor
      to the root). */
  lemma {:induction false} FieldsInDeclarationOrder(st: State, ss: seq<Stmt>)
    requires Valid(st) && st.arena[st.cursor].TypeNode? && NoTypes(ss)
    ensures FieldsListed(st, ss, VisitStatements(st, ss))
    decreases ss
  {
    if ss == [] {
      assert st.arena[st.cursor].t.fields.keys + [] == st.arena[st.cursor].t.fields.keys;
    } else {
      var r1 := VisitStatement(st, ss[0]);
      StatementsStep(st, ss);
      if r1.Ok? {
        MemberStep(st, ss[0]);
        assert NoTypes(ss[1..]);
        FieldsInDeclarationOrder(r1.value, ss[1..]);
        FieldsListedStep(st, ss, r1.value, VisitStatements(r1.value, ss[1..]));
      }
    }
  }

  /** In the top-level block a method's owner is the root, and the cursor is
      left on the root rather than restored to the block. */
  lemma TopLevelMethodLeavesCursorOnRoot(st: State, s: Stmt)
    requires Valid(st) && s.MethodDef? && st.arena[st.cursor] == BlockNode(RootRef)
    ensures var r := VisitStatement(st, s); r.Ok? ==> r.value.cursor == RootRef && r.value.cursor != st.cursor
  {
    assert Fits(st.arena[RootRef], RootRef);
  }

  /** The state in which the top-level statements are visited: the block
      symbol under the root, as the cursor. */
  function TopLevel(channel: seq<Diagnostic>): (st: State)
    ensures Valid(st) && st.cursor == 2 && |st.arena| == 3 && st.diagnostics == channel
    ensures st.arena[2] == BlockNode(RootRef) && RootTypes(st.arena) == map[NumberTypeName := NumberTypeRef]
  {
    Enter(InitialState(channel), BlockNode(RootRef))
  }

  /** The pass visits the top-level statements in `TopLevel`. */
  lemma ProgramRunsInTopLevel(p: Program, channel: seq<Diagnostic>)
    ensures var r := VisitProgram(p, channel); var b := VisitStatements(TopLevel(channel), p.statements);
      && (r.Throw? <==> b.Throw?)
      && (r.Throw? ==> r.exception == b.exception)
      && (r.Ok? ==> r.value.arena == b.value.arena && r.value.diagnostics == b.value.diagnostics)
      && (r.Ok? ==> r.value.arena[2] == BlockNode(RootRef))
  {
    var st0 := InitialState(channel);
    var b := VisitStatements(TopLevel(channel), p.statements);
    assert VisitStatement(st0, Block(p.statements)) == VisitBlock(st0, Block(p.statements));
    BlockBuilt(st0, Block(p.statements));
  }

  /** A program of one statement succeeds exactly when that statement does
      in the top-level block. */
  lemma OneStatementProgram(s: Stmt, channel: seq<Diagnostic>)
    ensures VisitProgram(Program([s]), channel).Ok? <==> VisitStatement(TopLevel(channel), s).Ok?
  {
    ProgramRunsInTopLevel(Program([s]), channel);
    StatementsStep(TopLevel(channel), [s]);
    assert [s][1..] == [];
  }

  /** After a type the cursor is the root, which has no parent: a second type
      declared at the top level throws a null dereference, even where the
      first one alone is accepted. */
  lemma SecondTopLevelTypeThrows(a: TypeDecl, b: TypeDecl, channel: seq<Diagnostic>)
    ensures VisitProgram(Program([TypeDef(a), TypeDef(b)]), channel).Throw?
    ensures VisitProgram(Program([TypeDef(a)]), channel).Ok? ==>
      VisitProgram(Program([TypeDef(a), TypeDef(b)]), channel) == Throw(NullReference)
  {
    var st := TopLevel(channel);
    ProgramRunsInTopLevel(Program([TypeDef(a), TypeDef(b)]), channel);
    ProgramRunsInTopLevel(Program([TypeDef(a)]), channel);
    StatementsStep(st, [TypeDef(a), TypeDef(b)]);
    StatementsStep(st, [TypeDef(a)]);
    assert [TypeDef(a), TypeDef(b)][1..] == [TypeDef(b)];
    var r1 := VisitStatement(st, TypeDef(a));
    if r1.Ok? {
      assert r1.value.cursor == RootRef;
      assert Fits(r1.value.arena[RootRef], RootRef);
      assert VisitStatement(r1.value, TypeDef(b)) == Throw(NullReference);
      StatementsStep(r1.value, [TypeDef(b)]);
    }
  }

  /** A top-level method leaves the cursor on the root, which has no parent:
      a type declared after it always throws, and throws a null dereference
      when the method itself is accepted. */
  lemma TypeAfterTopLevelMethodThrows(m: MethodDecl, t: TypeDecl, channel: seq<Diagnostic>)
    ensures VisitProgram(Program([MethodDef(m), TypeDef(t)]), channel).Throw?
    ensures VisitProgram(Program([MethodDef(m)]), channel).Ok? ==>
      VisitProgram(Program([MethodDef(m), TypeDef(t)]), channel) == Throw(NullReference)
  {
    var st := TopLevel(channel);
    ProgramRunsInTopLevel(Program([MethodDef(m), TypeDef(t)]), channel);
    OneStatementProgram(MethodDef(m), channel);
    StatementsStep(st, [MethodDef(m), TypeDef(t)]);
    assert [MethodDef(m), TypeDef(t)][1..] == [TypeDef(t)];
    var r1 := VisitStatement(st, MethodDef(m));
    if r1.Ok? {
      TopLevelMethodLeavesCursorOnRoot(st, MethodDef(m));
      TypeOnRootThrows(r1.value, TypeDef(t));
      StatementsStep(r1.value, [TypeDef(t)]);
    }
  }

  /** A type declared with the cursor on the root, which has no parent,
      dereferences null. */
  lemma TypeOnRootThrows(st: State, s: Stmt)
    requires Valid(st) && s.TypeDef? && st.cursor == RootRef
    ensures VisitStatement(st, s) == Throw(NullReference)
  {
    assert Fits(st.arena[RootRef], RootRef);
    assert VisitStatement(st, s) == VisitType(st, s);
  }

  /** A top-level type with no members, not named after the built-in type, is accepted. */
  lemma EmptyTypeIsAccepted(a: TypeDecl, channel: seq<Diagnostic>)
    requires a.members == [] && a.name != NumberTypeName
    ensures VisitProgram(Program([TypeDef(a)]), channel).Ok?
  {
    var st := TopLevel(channel);
    ProgramRunsInTopLevel(Program([TypeDef(a)]), channel);
    StatementsStep(st, [TypeDef(a)]);
    assert Fits(st.arena[2], 2);
    var st1 := DeclareType(st, a);
    assert st1.Ok?;
    assert VisitStatements(st1.value, []).Ok?;
    assert VisitStatement(st, TypeDef(a)).Ok?;
  }

  /** A user type cannot be named after the built-in number type. */
  lemma NumberTypeNameIsTaken(t: TypeDecl, rest: seq<Stmt>, channel: seq<Diagnostic>)
    requires t.name == NumberTypeName
    ensures VisitProgram(Program([TypeDef(t)] + rest), channel) == Throw(DuplicateKey(NumberTypeName))
  {
    var ss := [TypeDef(t)] + rest;
    var st := TopLevel(channel);
    ProgramRunsInTopLevel(Program(ss), channel);
    assert ss[0] == TypeDef(t);
    assert VisitStatement(st, TypeDef(t)) == Throw(DuplicateKey(NumberTypeName));
  }

  /** An `if` whose body is a variable declaration is accepted wherever the
      cursor is a statement. */
  lemma IfWithVariableBodySucceeds(st: State, condition: Expr, f: FieldDecl)
    requires Valid(st) && IsStatementSymbol(st.arena[st.cursor])
    ensures VisitIf(st, If(condition, FieldDef(f))).Ok?
  {
    var st1 := IfHeader(st, If(condition, FieldDef(f)));
    assert VisitStatement(st1, FieldDef(f)) == VisitVariable(st1, f);
  }

  /** A variable declared as the whole body of an `if` is reported once. */
  lemma VariableAsIfBodyIsReported(condition: Expr, f: FieldDecl, channel: seq<Diagnostic>)
    ensures var r := VisitProgram(Program([If(condition, FieldDef(f))]), channel);
      r.Ok? && r.value.diagnostics == channel + [FieldSingleStatement(f)]
  {
    var s := If(condition, FieldDef(f));
    var st := TopLevel(channel);
    OneStatementProgram(s, channel);
    IfWithVariableBodySucceeds(st, condition, f);
    assert VisitStatement(st, s) == VisitIf(st, s);
    IfBodyVariableEmits(condition, f);
  }

  lemma IfBodyVariableEmits(condition: Expr, f: FieldDecl)
    ensures EmittedAll([If(condition, FieldDef(f))]) == [FieldSingleStatement(f)]
  {
    var s := If(condition, FieldDef(f));
    assert [s][1..] == [];
    assert EmittedWithin(FieldDef(f)) == [];
    assert Emitted(true, FieldDef(f)) == [FieldSingleStatement(f)];
    assert EmittedWithin(s) == [FieldSingleStatement(f)];
    assert Emitted(false, s) == [FieldSingleStatement(f)];
  }

  /** Fields of a type are never reported. */
  lemma {:induction false} FieldsEmitNothing(ss: seq<Stmt>)
    requires AllFields(ss)
    ensures EmittedAll(ss) == []
    decreases ss
  {
    if ss != [] {
      assert AllFields(ss[1..]);
      FieldsEmitNothing(ss[1..]);
      assert EmittedWithin(ss[0]) == [];
      assert Emitted(false, ss[0]) == [];
    }
  }

  /** A program of one type whose members are all fields emits nothing. */
  lemma TypeFieldsAreNotReported(t: TypeDecl, channel: seq<Diagnostic>)
    requires AllFields(t.members)
    ensures var r := VisitProgram(Program([TypeDef(t)]), channel); r.Ok? ==> r.value.diagnostics == channel
  {
    FieldsEmitNothing(t.members);
    assert [TypeDef(t)][1..] == [];
    assert EmittedWithin(TypeDef(t)) == EmittedAll(t.members);
    assert Emitted(false, TypeDef(t)) == EmittedAll(t.members);
    assert EmittedAll([TypeDef(t)]) == EmittedAll(t.members);
  }
}
