/** A whole pass over one small program, in the language's own terms:

      type Point {
        number x; number y;
        number length(number unit) { if (condition) number temp; return 0; }
      }

    The pass succeeds for every condition. It builds the type with its two
    fields in order, the method with its parameter, and a return that holds
    the literal 0. It reports `temp` once. */
module EndToEnd {
  import opened Common
  import opened Ast
  import opened SymbolGraph
  import opened SymbolTree
  import opened SymbolTreeProperties
  import opened EndToEndShapes

  const X := FieldDecl("x", NumberTypeName, None)
  const Y := FieldDecl("y", NumberTypeName, None)
  const Temp := FieldDecl("temp", NumberTypeName, None)
  const Unit := Parameter("unit", NumberTypeName)

  /** `{ if (condition) <f> return 0; }` */
  function IfThenReturnZero(condition: Expr, f: FieldDecl): Stmt {
    Block([If(condition, FieldDef(f)), Return(Some(Number(0)))])
  }

  function Length(condition: Expr): MethodDecl {
    MethodDecl("length", NumberTypeName, [Unit], IfThenReturnZero(condition, Temp))
  }

  function Point(condition: Expr): TypeDecl {
    TypeDecl("Point", [FieldDef(X), FieldDef(Y), MethodDef(Length(condition))])
  }

  function PointProgram(condition: Expr): Program {
    Program([TypeDef(Point(condition))])
  }

  /** Where the return statement sits, counted from its block's symbol: after
      the block, the `if`, the condition and the declared variable. */
  function ReturnOffset(condition: Expr, f: FieldDecl): nat {
    2 + ExprSize(condition) + StmtSize(FieldDef(f))
  }

  /** A list of two statements runs the second from where the first left off. */
  lemma TwoStatements(st: State, s1: Stmt, s2: Stmt)
    requires Valid(st) && VisitStatement(st, s1).Ok?
    ensures VisitStatements(st, [s1, s2]) == VisitStatement(VisitStatement(st, s1).value, s2)
  {
    var st1 := VisitStatement(st, s1).value;
    StatementsStep(st, [s1, s2]);
    assert [s1, s2][1..] == [s2] && [s2][1..] == [];
    StatementsStep(st1, [s2]);
  }

  /** `return 0;` under any cursor. */
  lemma ReturnZeroBuilt(st: State)
    requires Valid(st)
    ensures var r := VisitReturn(st, Return(Some(Number(0)))); r.Ok? && ReturnsZeroAt(r.value.arena, |st.arena|, st.cursor)
  {
    var e0 := Enter(st, ReturnNode(st.cursor, None));
    assert VisitExpression(e0, Number(0)) == VisitNumber(e0, Number(0));
  }

  /** A return statement is visited as a return. */
  lemma ReturnDispatch(st: State, s: Stmt)
    requires Valid(st) && s.Return?
    ensures VisitStatement(st, s) == VisitReturn(st, s)
  {
  }

  /** An `if` whose body declares a variable, under a statement cursor: it
      succeeds and leaves the cursor where it was. */
  lemma IfWithVariableStatementSucceeds(st: State, condition: Expr, f: FieldDecl)
    requires Valid(st) && IsStatementSymbol(st.arena[st.cursor])
    ensures VisitStatement(st, If(condition, FieldDef(f))).Ok?
  {
    IfWithVariableBodySucceeds(st, condition, f);
    IfDispatch(st, If(condition, FieldDef(f)));
  }

  /** An `if` statement is visited as an `if`. */
  lemma IfDispatch(st: State, s: Stmt)
    requires Valid(st) && s.If?
    ensures VisitStatement(st, s) == VisitIf(st, s)
  {
  }

  /** After an `if` whose body declares a variable, `return 0;` runs from
      `st1`, where the `if` left off: the same cursor, and the symbols of the
      `if`, its condition and the variable built before it. */
  lemma ReturnAfterIf(st: State, condition: Expr, f: FieldDecl) returns (st1: State)
    requires Valid(st) && IsStatementSymbol(st.arena[st.cursor])
    ensures Valid(st1) && |st1.arena| == |st.arena| + ReturnOffset(condition, f) - 1 && st1.cursor == st.cursor
    ensures VisitStatements(st, IfThenReturnZero(condition, f).statements) == VisitReturn(st1, Return(Some(Number(0))))
  {
    var s1, s2 := If(condition, FieldDef(f)), Return(Some(Number(0)));
    IfWithVariableStatementSucceeds(st, condition, f);
    st1 := VisitStatement(st, s1).value;
    ReturnDispatch(st1, s2);
    TwoStatements(st, s1, s2);
  }

  /** The two statements under a statement cursor, visited into `st'`: the
      return is owned by the cursor and holds the literal 0. */
  lemma IfThenReturnStatements(st: State, condition: Expr, f: FieldDecl, j: nat) returns (st': State)
    requires Valid(st) && IsStatementSymbol(st.arena[st.cursor]) && j == |st.arena| + ReturnOffset(condition, f) - 1
    ensures VisitStatements(st, IfThenReturnZero(condition, f).statements) == Ok(st')
    ensures ReturnsZeroAt(st'.arena, j, st.cursor)
  {
    var st1 := ReturnAfterIf(st, condition, f);
    ReturnZeroBuilt(st1);
    st' := VisitReturn(st1, Return(Some(Number(0)))).value;
  }

  /** A block is visited as a block. */
  lemma BlockDispatch(st: State, s: Stmt)
    requires Valid(st) && s.Block?
    ensures VisitStatement(st, s) == VisitBlock(st, s)
  {
  }

  /** A block runs its statements under its own symbol and then restores the cursor. */
  lemma BlockRunsStatements(st: State, ss: seq<Stmt>, st0: State, st': State)
    requires Valid(st) && st0 == Enter(st, BlockNode(st.cursor)) && VisitStatements(st0, ss) == Ok(st')
    ensures VisitBlock(st, Block(ss)) == Ok(st'.(cursor := st.cursor))
  {
  }

  /** Any block whose statements visit into `st1` from its entered symbol: it
      ends there with the cursor restored, and its symbol is unchanged. */
  lemma BlockVisitedFrom(st: State, s: Stmt, st0: State, st1: State)
    requires Valid(st) && s.Block? && st0 == Enter(st, BlockNode(st.cursor))
    requires VisitStatements(st0, s.statements) == Ok(st1) && |st.arena| < |st1.arena|
    ensures VisitStatement(st, s) == Ok(st1.(cursor := st.cursor))
    ensures st1.arena[|st.arena|] == BlockNode(st.cursor)
  {
    BlockRunsStatements(st, s.statements, st0, st1);
    BlockDispatch(st, s);
    BlockBuilt(st, s);
  }

  /** The block under any cursor, visited into `st'`: its symbol `b` is owned
      by the cursor and owns the return `j`. */
  lemma IfThenReturnBlock(st: State, condition: Expr, f: FieldDecl, b: nat, j: nat) returns (st': State)
    requires Valid(st) && b == |st.arena| && j == b + ReturnOffset(condition, f)
    ensures VisitStatement(st, IfThenReturnZero(condition, f)) == Ok(st')
    ensures ReturnsZeroAt(st'.arena, j, b) && b < |st'.arena| && st'.arena[b] == BlockNode(st.cursor)
  {
    var st0 := Enter(st, BlockNode(st.cursor));
    var st1 := IfThenReturnStatements(st0, condition, f, j);
    BlockVisitedFrom(st, IfThenReturnZero(condition, f), st0, st1);
    st' := st1.(cursor := st.cursor);
  }

  /** Any successful visit of a statement other than a variable only lets
      symbols evolve, and keeps the fields of every type. */
  lemma VisitedExtends(st: State, s: Stmt, st': State)
    requires Valid(st) && VisitStatement(st, s) == Ok(st') && !s.FieldDef?
    ensures Extends(st.arena, st'.arena) && FieldsKept(st.arena, st'.arena, None)
  {
  }

  /** A method declared under a type runs its body right after its
      parameters, and ends on the type. */
  lemma MethodRunsBody(st: State, m: MethodDecl, st': State)
    requires Valid(st) && st.arena[st.cursor].TypeNode? && DeclareMethod(st, st.cursor, m).Ok?
    requires VisitStatement(DeclareMethod(st, st.cursor, m).value, m.body) == Ok(st')
    ensures VisitStatement(st, MethodDef(m)) == Ok(st'.(cursor := st.cursor))
  {
    MethodUnderType(st, m, st');
    MethodDispatch(st, MethodDef(m));
  }

  lemma MethodUnderType(st: State, m: MethodDecl, st': State)
    requires Valid(st) && st.arena[st.cursor].TypeNode? && DeclareMethod(st, st.cursor, m).Ok?
    requires VisitStatement(DeclareMethod(st, st.cursor, m).value, m.body) == Ok(st')
    ensures VisitMethod(st, MethodDef(m)) == Ok(st'.(cursor := st.cursor))
  {
    assert MethodOwner(st.arena, st.cursor) == Ok(st.cursor);
  }

  /** A method declaration is visited as a method. */
  lemma MethodDispatch(st: State, s: Stmt)
    requires Valid(st) && s.MethodDef?
    ensures VisitStatement(st, s) == VisitMethod(st, s)
  {
  }

  lemma DeclaredUnderType(st: State, m: MethodDecl, st1: State)
    requires Valid(st) && st.arena[st.cursor].TypeNode? && DeclareMethod(st, st.cursor, m) == Ok(st1)
    ensures MethodInType(st, m, st1.arena)
  {
  }

  /** A declared method stays declared in any arena that extends it without
      touching fields. */
  lemma MethodInTypeExtends(st: State, m: MethodDecl, a1: seq<Symbol>, a: seq<Symbol>)
    requires Valid(st) && MethodInType(st, m, a1) && Extends(a1, a) && FieldsKept(a1, a, None)
    ensures MethodInType(st, m, a)
  {
    var c, k := st.cursor, |st.arena|;
    assert Evolves(a1[c], a[c]);
    ParametersPlacedExtends(a1, a, k, k + 1, m.parameters);
  }

  lemma MethodPlacedFrom(st: State, m: MethodDecl, a: seq<Symbol>, b: nat, j: nat)
    requires Valid(st) && MethodInType(st, m, a) && b == |st.arena| + 1 + |m.parameters|
    requires b < |a| && ReturnsZeroAt(a, j, b) && a[b] == BlockNode(|st.arena|)
    ensures MethodPlaced(st, m, a, j)
  {
  }

  /** The block as the body of a method declared into `st1`: visited into
      `st2`, after which the method is placed with the block at `b` and the
      return at `j`. */
  lemma BodyPlaced(st: State, m: MethodDecl, condition: Expr, f: FieldDecl, st1: State, b: nat, j: nat) returns (st2: State)
    requires Valid(st) && Valid(st1) && MethodInType(st, m, st1.arena) && st1.cursor == |st.arena|
    requires b == |st.arena| + 1 + |m.parameters| && b == |st1.arena| && j == b + ReturnOffset(condition, f)
    ensures VisitStatement(st1, IfThenReturnZero(condition, f)) == Ok(st2) && MethodPlaced(st, m, st2.arena, j)
  {
    st2 := IfThenReturnBlock(st1, condition, f, b, j);
    VisitedExtends(st1, IfThenReturnZero(condition, f), st2);
    MethodInTypeExtends(st, m, st1.arena, st2.arena);
    MethodPlacedFrom(st, m, st2.arena, b, j);
  }

  /** A method with distinct parameter names and that block as its body,
      declared in a type that has no method of that name: it succeeds, ends
      on the type, and is placed as `MethodPlaced` says. */
  lemma MethodWithIfThenReturnBody(st: State, m: MethodDecl, condition: Expr, f: FieldDecl) returns (st': State, j: nat)
    requires Valid(st) && st.arena[st.cursor].TypeNode? && m.name !in st.arena[st.cursor].t.methods
    requires DistinctParameterNames(m.parameters) && m.body == IfThenReturnZero(condition, f)
    ensures VisitStatement(st, MethodDef(m)) == Ok(st') && st'.cursor == st.cursor
    ensures j == |st.arena| + 1 + |m.parameters| + ReturnOffset(condition, f) && MethodPlaced(st, m, st'.arena, j)
  {
    var b := |st.arena| + 1 + |m.parameters|;
    j := b + ReturnOffset(condition, f);
    DeclareMethodSucceeds(st, st.cursor, m);
    var st1 := DeclareMethod(st, st.cursor, m).value;
    DeclaredUnderType(st, m, st1);
    var st2 := BodyPlaced(st, m, condition, f, st1, b, j);
    MethodRunsBody(st, m, st2);
    st' := st2.(cursor := st.cursor);
    assert st'.arena == st2.arena;
  }

  /** A list of three statements runs the last two from where the first left off. */
  lemma ThreeStatements(st: State, s1: Stmt, s2: Stmt, s3: Stmt)
    requires Valid(st) && VisitStatement(st, s1).Ok?
    ensures VisitStatements(st, [s1, s2, s3]) == VisitStatements(VisitStatement(st, s1).value, [s2, s3])
  {
    StatementsStep(st, [s1, s2, s3]);
    assert [s1, s2, s3][1..] == [s2, s3];
  }

  /** A field declared in the type at the cursor under a name the type does
      not have yet: it is added at the next free index after the type's
      earlier fields, and the type's methods are unchanged. */
  lemma FieldMember(st: State, f: FieldDecl, k: nat) returns (st': State)
    requires Valid(st) && st.arena[st.cursor].TypeNode? && f.name !in st.arena[st.cursor].t.fields.items
    requires k == |st.arena|
    ensures VisitTypeField(st, f) == Ok(st') && FieldAdded(st, f, k, st')
  {
    TypeFieldBuilt(st, f);
    st' := VisitTypeField(st, f).value;
  }

  /** Two fields appended, one after the other, to a type with no field. */
  lemma TwoFieldsAdded(st: State, f1: FieldDecl, f2: FieldDecl, st1: State, st2: State, k: nat)
    requires Valid(st) && st.arena[st.cursor].TypeNode? && st.arena[st.cursor].t.fields == Collections.EmptyOrdered()
    requires k == |st.arena| && f1.initValue.None? && FieldAdded(st, f1, k, st1) && Valid(st1)
    requires FieldAdded(st1, f2, k + 1, st2)
    ensures FieldsInOrder(st, f1, f2, st2)
  {
    assert st.arena[st.cursor].t.fields.keys == [];
    assert [] + [f1.name] + [f2.name] == [f1.name, f2.name];
  }

  /** Two fields without initializer and with different names, in a type at
      the cursor with no field yet: both are added, in order, at the next two
      indices, and the methods stay. */
  lemma TwoFields(st: State, f1: FieldDecl, f2: FieldDecl) returns (st1: State, st2: State)
    requires Valid(st) && st.arena[st.cursor].TypeNode? && st.arena[st.cursor].t.fields == Collections.EmptyOrdered()
    requires f1.initValue.None? && f1.name != f2.name
    ensures VisitTypeField(st, f1) == Ok(st1) && Valid(st1) && st1.arena[st1.cursor].TypeNode?
    ensures VisitTypeField(st1, f2) == Ok(st2)
    ensures FieldsInOrder(st, f1, f2, st2)
  {
    var k := |st.arena|;
    FirstFieldNew(st, f1);
    st1 := FieldMember(st, f1, k);
    st2 := SecondFieldMember(st, f1, f2, st1, k);
  }

  /** The second of two differently named fields, declared after the first
      was added to a type with no field. */
  lemma SecondFieldMember(st: State, f1: FieldDecl, f2: FieldDecl, st1: State, k: nat) returns (st2: State)
    requires Valid(st) && st.arena[st.cursor].TypeNode? && st.arena[st.cursor].t.fields == Collections.EmptyOrdered()
    requires k == |st.arena| && f1.initValue.None? && f1.name != f2.name && FieldAdded(st, f1, k, st1)
    ensures Valid(st1) && st1.arena[st1.cursor].TypeNode? && VisitTypeField(st1, f2) == Ok(st2)
    ensures FieldsInOrder(st, f1, f2, st2)
  {
    FirstFieldAdded(st, f1, f2, st1, k);
    st2 := FieldMember(st1, f2, k + 1);
    TwoFieldsAdded(st, f1, f2, st1, st2, k);
  }

  /** A type with no field has none under any name. */
  lemma FirstFieldNew(st: State, f: FieldDecl)
    requires Valid(st) && st.arena[st.cursor].TypeNode? && st.arena[st.cursor].t.fields == Collections.EmptyOrdered()
    ensures f.name !in st.arena[st.cursor].t.fields.items
  {
  }

  /** After the first of two differently named fields, the second is new to
      the type and goes right after the first. */
  lemma FirstFieldAdded(st: State, f1: FieldDecl, f2: FieldDecl, st1: State, k: nat)
    requires Valid(st) && st.arena[st.cursor].TypeNode? && st.arena[st.cursor].t.fields == Collections.EmptyOrdered()
    requires k == |st.arena| && f1.initValue.None? && f1.name != f2.name && FieldAdded(st, f1, k, st1)
    ensures Valid(st1) && st1.arena[st1.cursor].TypeNode? && f2.name !in st1.arena[st1.cursor].t.fields.items
    ensures k + 1 == |st1.arena|
  {
    assert st.arena[st.cursor].t.fields.items == map[];
  }

  /** The members of `Point`, visited from a type at the cursor with no field
      and no method yet: `x` and `y` are its fields, in order, at the next
      two indices; `st2` is where the method starts, and the method is placed
      in the final arena. */
  lemma PointMembers(st: State, condition: Expr) returns (st2: State, st': State, j: nat)
    requires Valid(st) && st.arena[st.cursor].TypeNode?
    requires st.arena[st.cursor].t.fields == Collections.EmptyOrdered() && st.arena[st.cursor].t.methods == map[]
    ensures VisitStatements(st, Point(condition).members) == Ok(st') && st'.cursor == st.cursor
    ensures FieldsInOrder(st, X, Y, st2)
    ensures j == |st2.arena| + 1 + |Length(condition).parameters| + ReturnOffset(condition, Temp)
    ensures MethodPlaced(st2, Length(condition), st'.arena, j)
  {
    var st1;
    st1, st2 := TwoFields(st, X, Y);
    st', j := MethodWithIfThenReturnBody(st2, Length(condition), condition, Temp);
    MembersRun(st, condition, st1, st2, st');
  }

  /** The members of `Point` run one after the other. */
  lemma MembersRun(st: State, condition: Expr, st1: State, st2: State, st': State)
    requires Valid(st) && st.arena[st.cursor].TypeNode? && VisitTypeField(st, X) == Ok(st1)
    requires Valid(st1) && st1.arena[st1.cursor].TypeNode? && VisitTypeField(st1, Y) == Ok(st2)
    requires VisitStatement(st2, MethodDef(Length(condition))) == Ok(st')
    ensures VisitStatements(st, Point(condition).members) == Ok(st')
  {
    FieldDispatch(st, X);
    FieldDispatch(st1, Y);
    ThreeStatements(st, FieldDef(X), FieldDef(Y), MethodDef(Length(condition)));
    TwoStatements(st1, FieldDef(Y), MethodDef(Length(condition)));
  }

  /** A field declared in a type is visited as a type's field. */
  lemma FieldDispatch(st: State, f: FieldDecl)
    requires Valid(st) && st.arena[st.cursor].TypeNode?
    ensures VisitStatement(st, FieldDef(f)) == VisitTypeField(st, f)
  {
    assert VisitStatement(st, FieldDef(f)) == VisitField(st, FieldDef(f));
  }

  /** A type declared where the cursor's parent is the root, under a name the
      root does not have yet: it runs its members from its own symbol and
      then leaves the cursor on the root. */
  lemma TypeRunsMembers(st: State, t: TypeDecl, st2: State)
    requires Valid(st) && ParentOf(st.arena[st.cursor]) == Some(RootRef) && DeclareType(st, t).Ok?
    requires VisitStatements(DeclareType(st, t).value, t.members) == Ok(st2)
    ensures VisitType(st, TypeDef(t)) == Ok(st2.(cursor := RootRef))
  {
    assert Fits(st.arena[RootRef], RootRef);
  }

  /** A type is visited as a type. */
  lemma TypeDispatch(st: State, s: Stmt)
    requires Valid(st) && s.TypeDef?
    ensures VisitStatement(st, s) == VisitType(st, s)
  {
  }

  /** `DeclareType` under a new name: the type's symbol, with no field and no
      method yet, at the next free index, which becomes the cursor. */
  lemma TypeDeclared(st: State, t: TypeDecl) returns (st1: State)
    requires Valid(st) && t.name !in RootTypes(st.arena)
    ensures DeclareType(st, t) == Ok(st1) && Valid(st1) && st1.cursor == |st.arena| && |st1.arena| == |st.arena| + 1
    ensures st1.arena[st1.cursor].TypeNode? && st1.arena[st1.cursor].t.methods == map[]
    ensures st1.arena[st1.cursor].t.fields == Collections.EmptyOrdered()
  {
    st1 := DeclareType(st, t).value;
  }

  /** `Point` declared at the top level (three symbols already built, the
      cursor's parent the root): `st1` holds its symbol at 3, `st2` its two
      fields, and the visit ends in `st'`. */
  lemma PointType(st: State, condition: Expr) returns (st1: State, st2: State, st': State, j: nat)
    requires Valid(st) && |st.arena| == 3 && ParentOf(st.arena[st.cursor]) == Some(RootRef) && "Point" !in RootTypes(st.arena)
    ensures VisitStatement(st, TypeDef(Point(condition))) == Ok(st')
    ensures Valid(st1) && st1.cursor == 3 && |st1.arena| == 4
    ensures Valid(st1) && FieldsInOrder(st1, X, Y, st2)
    ensures j == |st2.arena| + 1 + |Length(condition).parameters| + ReturnOffset(condition, Temp)
    ensures MethodPlaced(st2, Length(condition), st'.arena, j)
  {
    st1 := TypeDeclared(st, Point(condition));
    var st3;
    st2, st3, j := PointMembers(st1, condition);
    TypeRunsMembers(st, Point(condition), st3);
    TypeDispatch(st, TypeDef(Point(condition)));
    st' := st3.(cursor := RootRef);
  }

  /** What the pass builds for `Point` in arena `a`: the type at 3 with the
      fields `x` at 4 and `y` at 5, in that order; the method `length` at 6,
      registered in the type, with its parameter `unit` at 7; the body's
      block at 8, owned by the method; and the return holding 0 after the
      `if`, owned by the block. */
  ghost predicate PointBuilt(a: seq<Symbol>, condition: Expr) {
    && 8 < |a| && a[3].TypeNode?
    && a[3].t.fields.keys == ["x", "y"] && a[3].t.fields.items == map["x" := 4, "y" := 5]
    && "length" in a[3].t.methods && a[3].t.methods["length"] == 6
    && a[6].MethodNode? && "unit" in a[6].parameterSymbols && a[6].parameterSymbols["unit"] == 7
    && a[7] == ParameterNode(6, Unit)
    && a[8] == BlockNode(6) && ReturnsZeroAt(a, 8 + ReturnOffset(condition, Temp), 8)
  }

  lemma PointPlaced(st1: State, st2: State, a: seq<Symbol>, condition: Expr, j: nat)
    requires Valid(st1) && st1.cursor == 3 && |st1.arena| == 4
    requires FieldsInOrder(st1, X, Y, st2)
    requires j == |st2.arena| + 1 + |Length(condition).parameters| + ReturnOffset(condition, Temp)
    requires MethodPlaced(st2, Length(condition), a, j)
    ensures PointBuilt(a, condition)
  {
    assert |st2.arena| == 6;
    assert ParametersPlaced(a, 6, 7, [Unit]);
    assert a[7] == ParameterNode(6, [Unit][0]);
  }

  /** The only diagnostic the `Point` program emits is for `temp`, the
      variable that is the whole body of the `if`. */
  lemma PointEmitted(condition: Expr)
    ensures EmittedAll(PointProgram(condition).statements) == [FieldSingleStatement(Temp)]
  {
    var temp := [FieldSingleStatement(Temp)];
    var ifTemp := If(condition, FieldDef(Temp));
    var ret := Return(Some(Number(0)));
    assert Emitted(true, FieldDef(Temp)) == temp + [];
    assert Emitted(false, ifTemp) == [] + Emitted(true, FieldDef(Temp));
    assert EmittedAll([ret]) == Emitted(false, ret) + EmittedAll([]) == [];
    assert EmittedAll([ifTemp, ret]) == Emitted(false, ifTemp) + EmittedAll([ret]) by {
      assert [ifTemp, ret][1..] == [ret];
    }
    var body := IfThenReturnZero(condition, Temp);
    assert Emitted(false, body) == [] + EmittedAll([ifTemp, ret]);
    var length := MethodDef(Length(condition));
    assert Emitted(false, length) == [] + Emitted(false, body);
    assert EmittedAll([length]) == Emitted(false, length) + EmittedAll([]) by {
      assert [length][1..] == [];
    }
    assert EmittedAll([FieldDef(Y), length]) == Emitted(false, FieldDef(Y)) + EmittedAll([length]) by {
      assert [FieldDef(Y), length][1..] == [length];
    }
    var ms := Point(condition).members;
    assert EmittedAll(ms) == Emitted(false, FieldDef(X)) + EmittedAll([FieldDef(Y), length]) by {
      assert ms[1..] == [FieldDef(Y), length];
    }
    var point := TypeDef(Point(condition));
    assert Emitted(false, point) == [] + EmittedAll(ms);
    assert EmittedAll([point]) == Emitted(false, point) + EmittedAll([]) by {
      assert [point][1..] == [];
    }
  }

  /** A program of one statement that visits into `st'` from the top level:
      the pass succeeds with the arena of `st'`, and the diagnostics it emits. */
  lemma OneStatementRuns(s: Stmt, channel: seq<Diagnostic>, st': State)
    requires VisitStatement(TopLevel(channel), s) == Ok(st')
    ensures var r := VisitProgram(Program([s]), channel); r.Ok? && var g := r.value;
      && g.arena == st'.arena && g.diagnostics == channel + EmittedAll([s])
  {
    ProgramRunsInTopLevel(Program([s]), channel);
    StatementsStep(TopLevel(channel), [s]);
    assert [s][1..] == [];
  }

  /** A type visited into `st'` is registered in the root at the index it
      was declared at. */
  lemma TypeRegistered(st: State, s: Stmt, st': State)
    requires Valid(st) && s.TypeDef? && VisitStatement(st, s) == Ok(st')
    ensures s.typeDecl.name in RootTypes(st'.arena) && RootTypes(st'.arena)[s.typeDecl.name] == |st.arena|
  {
    TypeDispatch(st, s);
    TypeBuilt(st, s);
  }

  /** The whole pass over the `Point` program, for any condition and any
      diagnostics already on the channel: it succeeds, registers `Point` in
      the root at 3, builds the type as `PointBuilt` says, and adds one
      diagnostic, for `temp`. */
  lemma PointScenario(condition: Expr, channel: seq<Diagnostic>)
    ensures var r := VisitProgram(PointProgram(condition), channel); r.Ok? && var a := r.value.arena;
      && r.value.diagnostics == channel + [FieldSingleStatement(Temp)]
      && "Point" in RootTypes(a) && RootTypes(a)["Point"] == 3
      && PointBuilt(a, condition)
  {
    var st := TopLevel(channel);
    var s := TypeDef(Point(condition));
    var st1, st2, st', j := PointType(st, condition);
    PointPlaced(st1, st2, st'.arena, condition, j);
    OneStatementRuns(s, channel, st');
    TypeRegistered(st, s, st');
    PointEmitted(condition);
  }
}
