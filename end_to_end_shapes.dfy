/** Shapes of the arena that the end-to-end pass over `Point` builds: a
    method placed in a type, and a return holding the literal 0. */
module EndToEndShapes {
  import opened Common
  import opened Ast
  import opened SymbolGraph
  import opened SymbolTree
  import Collections
  import TypeSymbols

  /** Symbol `j` of arena `a` is a return owned by `owner` whose value slot
      holds the literal 0, built right after it. */
  ghost predicate ReturnsZeroAt(a: seq<Symbol>, j: nat, owner: Ref) {
    j + 1 < |a| && a[j] == ReturnNode(owner, Some(j + 1)) && a[j + 1] == NumberLiteralNode(j, 0)
  }

  /** In arena `a`, the method `m` declared at the next free index `k` of
      `st` under the type at the cursor: the type keeps its fields and has
      `m` registered at `k`, and the parameters follow `k`. */
  ghost predicate MethodInType(st: State, m: MethodDecl, a: seq<Symbol>)
    requires Valid(st)
  {
    var c, k := st.cursor, |st.arena|;
    && c < |a| && a[c].TypeNode? && st.arena[c].TypeNode? && a[c].t.fields == st.arena[c].t.fields
    && m.name in a[c].t.methods && a[c].t.methods[m.name] == k
    && ParametersPlaced(a, k, k + 1, m.parameters)
  }

  /** As `MethodInType`, and the body's block comes right after the
      parameters and owns a return `j` holding 0. */
  ghost predicate MethodPlaced(st: State, m: MethodDecl, a: seq<Symbol>, j: nat)
    requires Valid(st)
  {
    var b := |st.arena| + 1 + |m.parameters|;
    MethodInType(st, m, a) && b < |a| && ReturnsZeroAt(a, j, b) && a[b] == BlockNode(|st.arena|)
  }

  /** Fields `f1` and `f2`, in that order, appended at the next two indices
      to the type at the cursor of `st`, which had no field; the cursor and
      the type's methods stay. */
  ghost predicate FieldsInOrder(st: State, f1: FieldDecl, f2: FieldDecl, st2: State)
    requires Valid(st)
  {
    && Valid(st2) && st2.cursor == st.cursor && |st2.arena| == |st.arena| + 1 + StmtSize(FieldDef(f2))
    && st.arena[st.cursor].TypeNode? && st2.arena[st.cursor].TypeNode?
    && st2.arena[st.cursor].t.methods == st.arena[st.cursor].t.methods
    && st2.arena[st.cursor].t.fields.keys == [f1.name, f2.name]
    && st2.arena[st.cursor].t.fields.items == map[f1.name := |st.arena|, f2.name := |st.arena| + 1]
  }

  /** Type `t` with field `name` appended to its fields, its symbol at `k`. */
  function WithField(t: TypeSymbols.TypeSymbol, name: string, k: Ref): TypeSymbols.TypeSymbol {
    t.(fields := Collections.OrderedMap(t.fields.keys + [name], t.fields.items[name := k]))
  }

  /** `st'` has field `f` appended to the type at the cursor of `st`, its
      symbol at `k`; the cursor stays, and nothing else of the type changes. */
  ghost predicate FieldAdded(st: State, f: FieldDecl, k: nat, st': State)
    requires Valid(st)
  {
    && Valid(st') && st'.cursor == st.cursor && |st'.arena| == k + StmtSize(FieldDef(f))
    && st.arena[st.cursor].TypeNode? && st'.arena[st.cursor] == TypeNode(WithField(st.arena[st.cursor].t, f.name, k))
  }
}
