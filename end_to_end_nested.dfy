/** A type declared among the members of a type, in the language's own terms:

      type Outer { <f1> type Inner { } <f3> }

    `Inner` is registered in the root, like any type. Its visit leaves the
    cursor on the root, so the member after it is not a field of `Outer`:
    it is built as a local variable owned by the root. Nothing is reported. */
module NestedTypeEndToEnd {
  import opened Common
  import opened Ast
  import opened SymbolGraph
  import opened SymbolTree
  import opened SymbolTreeProperties
  import opened EndToEnd
  import Collections
  import TypeSymbols

  /** `type <outer> { <f1> type <inner> { } <f3> }` */
  function Nested(outer: string, inner: string, f1: FieldDecl, f3: FieldDecl): TypeDecl {
    TypeDecl(outer, [FieldDef(f1), TypeDef(TypeDecl(inner, [])), FieldDef(f3)])
  }

  /** A member-less type declared where the cursor's parent is the root,
      under a new name: it is registered in the root at the next free index,
      the cursor moves to the root, and no type's fields change. */
  lemma InnerTypeVisited(st: State, inner: string) returns (st': State)
    requires Valid(st) && ParentOf(st.arena[st.cursor]) == Some(RootRef) && inner !in RootTypes(st.arena)
    ensures VisitStatement(st, TypeDef(TypeDecl(inner, []))) == Ok(st')
    ensures Valid(st') && st'.cursor == RootRef && st'.diagnostics == st.diagnostics
    ensures |st'.arena| == |st.arena| + 1 && FieldsKept(st.arena, st'.arena, None)
    ensures st'.arena[|st.arena|] == TypeNode(TypeSymbols.NewTypeSymbol(RootRef, TypeDecl(inner, [])))
    ensures RootTypes(st'.arena) == RootTypes(st.arena)[inner := |st.arena|]
  {
    var t := TypeDecl(inner, []);
    var st1 := TypeDeclared(st, t);
    assert VisitStatements(st1, []) == Ok(st1);
    TypeRunsMembers(st, t, st1);
    st' := st1.(cursor := RootRef);
    TypeDispatch(st, TypeDef(t));
  }

  /** A field declared while the cursor is on the root: it becomes a local
      variable owned by the root, every earlier symbol is kept, and nothing
      is reported. */
  lemma RootVariableVisited(st: State, f: FieldDecl) returns (st': State)
    requires Valid(st) && st.cursor == RootRef
    ensures VisitStatement(st, FieldDef(f)) == Ok(st')
    ensures Valid(st') && st'.cursor == RootRef && st'.diagnostics == st.diagnostics && Keeps(st.arena, st'.arena)
    ensures var k := |st.arena|;
      k < |st'.arena| && st'.arena[k].VariableNode? && st'.arena[k].parent == RootRef && st'.arena[k].fieldAst == f
  {
    assert Fits(st.arena[RootRef], RootRef);
    VariableBuilt(st, f);
    st' := VisitVariable(st, f).value;
    assert VisitStatement(st, FieldDef(f)) == VisitVariable(st, f);
  }

  /** The first member: `f1` added to the type at the cursor, which had no
      field, with the root untouched and the type still owned by the root. */
  lemma FirstMember(st: State, f1: FieldDecl) returns (st1: State)
    requires Valid(st) && st.arena[st.cursor].TypeNode? && st.arena[st.cursor].t.parent == RootRef
    requires st.arena[st.cursor].t.fields == Collections.EmptyOrdered() && f1.initValue.None?
    ensures VisitStatement(st, FieldDef(f1)) == Ok(st1)
    ensures Valid(st1) && st1.cursor == st.cursor && |st1.arena| == |st.arena| + 1 && st1.diagnostics == st.diagnostics
    ensures ParentOf(st1.arena[st1.cursor]) == Some(RootRef) && RootTypes(st1.arena) == RootTypes(st.arena)
    ensures st1.arena[st.cursor].TypeNode? && st1.arena[st.cursor].t.fields.keys == [f1.name]
    ensures st1.arena[st.cursor].t.fields.items == map[f1.name := |st.arena|]
    ensures st1.arena[RootRef] == st.arena[RootRef]
  {
    assert Fits(st.arena[RootRef], RootRef);
    FirstFieldNew(st, f1);
    TypeFieldBuilt(st, f1);
    st1 := VisitTypeField(st, f1).value;
    assert VisitStatement(st, FieldDef(f1)) == VisitTypeField(st, f1);
  }

  /** The members of `Nested`, visited from a type owned by the root with no
      field: `f1` is the type's only field; `inner` is registered in the root
      right after it; the cursor is left on the root, so `f3` becomes a
      variable owned by the root; and nothing is reported. */
  lemma NestedMembers(st: State, outer: string, inner: string, f1: FieldDecl, f3: FieldDecl) returns (st': State)
    requires Valid(st) && st.arena[st.cursor].TypeNode? && st.arena[st.cursor].t.parent == RootRef
    requires st.arena[st.cursor].t.fields == Collections.EmptyOrdered() && f1.initValue.None?
    requires inner !in RootTypes(st.arena)
    ensures VisitStatements(st, Nested(outer, inner, f1, f3).members) == Ok(st')
    ensures st'.diagnostics == st.diagnostics && NestedPlaced(st.arena, st.cursor, inner, f1, f3, st')
  {
    var st1 := FirstMember(st, f1);
    var st2 := InnerTypeVisited(st1, inner);
    var st3 := RootVariableVisited(st2, f3);
    MembersRun(st, inner, f1, f3, st1, st2, st3);
    MembersPlaced(st.arena, st.cursor, inner, f1, f3, st1, st2, st3);
    st' := st3;
  }

  /** What the members of `Nested` leave in `st'`, visited from the type `c`
      of arena `a`. */
  ghost predicate NestedPlaced(a: seq<Symbol>, c: Ref, inner: string, f1: FieldDecl, f3: FieldDecl, st': State)
    requires WellFormed(a)
  {
    var k := |a|;
    && Valid(st') && st'.cursor == RootRef && k + 2 < |st'.arena| && c < |st'.arena|
    && st'.arena[c].TypeNode? && st'.arena[c].t.fields.keys == [f1.name]
    && st'.arena[c].t.fields.items == map[f1.name := k]
    && st'.arena[k + 1] == TypeNode(TypeSymbols.NewTypeSymbol(RootRef, TypeDecl(inner, [])))
    && RootTypes(st'.arena) == RootTypes(a)[inner := k + 1]
    && st'.arena[k + 2].VariableNode? && st'.arena[k + 2].parent == RootRef && st'.arena[k + 2].fieldAst == f3
  }

  /** The three members run one after the other. */
  lemma MembersRun(st: State, inner: string, f1: FieldDecl, f3: FieldDecl, st1: State, st2: State, st3: State)
    requires Valid(st) && VisitStatement(st, FieldDef(f1)) == Ok(st1)
    requires Valid(st1) && VisitStatement(st1, TypeDef(TypeDecl(inner, []))) == Ok(st2)
    requires Valid(st2) && VisitStatement(st2, FieldDef(f3)) == Ok(st3)
    ensures VisitStatements(st, [FieldDef(f1), TypeDef(TypeDecl(inner, [])), FieldDef(f3)]) == Ok(st3)
  {
    ThreeStatements(st, FieldDef(f1), TypeDef(TypeDecl(inner, [])), FieldDef(f3));
    TwoStatements(st1, TypeDef(TypeDecl(inner, [])), FieldDef(f3));
  }

  /** The three steps' facts, carried to the final state. */
  lemma MembersPlaced(a: seq<Symbol>, c: Ref, inner: string, f1: FieldDecl, f3: FieldDecl, st1: State, st2: State, st3: State)
    requires WellFormed(a) && c < |a| && Valid(st1) && |st1.arena| == |a| + 1 && RootTypes(st1.arena) == RootTypes(a)
    requires st1.arena[c].TypeNode? && st1.arena[c].t.fields.keys == [f1.name] && st1.arena[c].t.fields.items == map[f1.name := |a|]
    requires Valid(st2) && |st2.arena| == |st1.arena| + 1 && FieldsKept(st1.arena, st2.arena, None)
    requires st2.arena[|st1.arena|] == TypeNode(TypeSymbols.NewTypeSymbol(RootRef, TypeDecl(inner, [])))
    requires RootTypes(st2.arena) == RootTypes(st1.arena)[inner := |st1.arena|]
    requires Valid(st3) && st3.cursor == RootRef && Keeps(st2.arena, st3.arena)
    requires |st2.arena| < |st3.arena| && st3.arena[|st2.arena|].VariableNode?
    requires st3.arena[|st2.arena|].parent == RootRef && st3.arena[|st2.arena|].fieldAst == f3
    ensures NestedPlaced(a, c, inner, f1, f3, st3)
  {
    assert st3.arena[RootRef] == st2.arena[RootRef];
    assert st3.arena[c] == st2.arena[c];
  }

  /** What the pass builds for `Nested` in arena `a`: `outer` at 3 with `f1`,
      at 4, as its only field; `inner` at 5, owned by the root; both types
      registered in the root next to the built-in one; and `f3` at 6, a
      variable owned by the root. */
  ghost predicate NestedBuilt(a: seq<Symbol>, outer: string, inner: string, f1: FieldDecl, f3: FieldDecl) {
    && WellFormed(a) && 6 < |a|
    && a[3].TypeNode? && a[3].t.fields.keys == [f1.name] && a[3].t.fields.items == map[f1.name := 4]
    && a[5] == TypeNode(TypeSymbols.NewTypeSymbol(RootRef, TypeDecl(inner, [])))
    && RootTypes(a) == map[NumberTypeName := NumberTypeRef, outer := 3, inner := 5]
    && a[6].VariableNode? && a[6].parent == RootRef && a[6].fieldAst == f3
  }

  /** `Nested` declared at the top level: the visit succeeds, reports
      nothing and builds what `NestedBuilt` says. */
  lemma OuterVisited(channel: seq<Diagnostic>, outer: string, inner: string, f1: FieldDecl, f3: FieldDecl) returns (st': State)
    requires outer != inner && outer != NumberTypeName && inner != NumberTypeName && f1.initValue.None?
    ensures VisitStatement(TopLevel(channel), TypeDef(Nested(outer, inner, f1, f3))) == Ok(st')
    ensures st'.diagnostics == channel && NestedBuilt(st'.arena, outer, inner, f1, f3)
  {
    var t := Nested(outer, inner, f1, f3);
    var st1 := OuterDeclared(channel, t);
    var st2 := NestedMembers(st1, outer, inner, f1, f3);
    OuterRuns(TopLevel(channel), t, st1, st2);
    st' := st2.(cursor := RootRef);
    NestedBuiltFrom(st1.arena, outer, inner, f1, f3, st2);
  }

  /** A new type declared in the top-level block: its symbol, owned by the
      root with no field yet, is at 3 and becomes the cursor. */
  lemma OuterDeclared(channel: seq<Diagnostic>, t: TypeDecl) returns (st1: State)
    requires t.name != NumberTypeName
    ensures DeclareType(TopLevel(channel), t) == Ok(st1)
    ensures Valid(st1) && st1.cursor == 3 && |st1.arena| == 4 && st1.diagnostics == channel
    ensures st1.arena[3].TypeNode? && st1.arena[3].t.parent == RootRef && st1.arena[3].t.fields == Collections.EmptyOrdered()
    ensures RootTypes(st1.arena) == map[NumberTypeName := NumberTypeRef][t.name := 3]
  {
    var st := TopLevel(channel);
    st1 := TypeDeclared(st, t);
    assert st1.arena[3] == TypeNode(TypeSymbols.NewTypeSymbol(RootRef, t));
  }

  /** A type declared in the top-level block, its members visited into `st2`,
      ends on the root. */
  lemma OuterRuns(st: State, t: TypeDecl, st1: State, st2: State)
    requires Valid(st) && st.arena[st.cursor] == BlockNode(RootRef) && DeclareType(st, t) == Ok(st1)
    requires Valid(st1) && VisitStatements(st1, t.members) == Ok(st2)
    ensures VisitStatement(st, TypeDef(t)) == Ok(st2.(cursor := RootRef))
  {
    TypeRunsMembers(st, t, st2);
    TypeDispatch(st, TypeDef(t));
  }

  /** The members' facts, from the arena in which `outer` was declared at 3. */
  lemma NestedBuiltFrom(a: seq<Symbol>, outer: string, inner: string, f1: FieldDecl, f3: FieldDecl, st2: State)
    requires WellFormed(a) && |a| == 4 && RootTypes(a) == map[NumberTypeName := NumberTypeRef][outer := 3]
    requires NestedPlaced(a, 3, inner, f1, f3, st2)
    ensures NestedBuilt(st2.arena, outer, inner, f1, f3)
  {
  }

  /** The whole pass over `type <outer> { <f1> type <inner> { } <f3> }`, for
      different new type names and any diagnostics already on the channel:
      it succeeds, reports nothing, and builds what `NestedBuilt` says: `f3`
      is a variable owned by the root, not a field of `outer`. */
  lemma NestedTypeScenario(outer: string, inner: string, f1: FieldDecl, f3: FieldDecl, channel: seq<Diagnostic>)
    requires outer != inner && outer != NumberTypeName && inner != NumberTypeName && f1.initValue.None?
    ensures var r := VisitProgram(Program([TypeDef(Nested(outer, inner, f1, f3))]), channel);
      r.Ok? && r.value.diagnostics == channel && NestedBuilt(r.value.arena, outer, inner, f1, f3)
  {
    var s := TypeDef(Nested(outer, inner, f1, f3));
    var st' := OuterVisited(channel, outer, inner, f1, f3);
    ProgramRunsInTopLevel(Program([s]), channel);
    StatementsStep(TopLevel(channel), [s]);
    assert [s][1..] == [];
  }
}
