/** The builder as the source has it: one object whose `_current` cursor is
    overwritten and restored around every recursive visit, whose symbols'
    dictionaries and slots are filled in place, and which emits diagnostics
    to a channel as a side effect. Each visit method is proved to compute the
    function of the same name in `SymbolTree`; a method returns the exception
    it threw, if any, and a caller that sees one returns it at once. */
module Builder {
  import opened Common
  import opened Ast
  import opened TypeSymbols
  import opened SymbolGraph
  import Spec = SymbolTree

  /** The exception a spec result stands for, if any. */
  function Thrown<T>(r: Result<T>): Option<Exception> {
    if r.Throw? then Some(r.exception) else None
  }

  /** One parameter, then the rest. */
  lemma ParametersUnfold(st: Spec.State, ps: seq<Parameter>)
    requires Spec.Valid(st) && ps != []
    ensures Spec.VisitParameter(st, ps[0]).Throw? ==> Thrown(Spec.VisitParameters(st, ps)) == Thrown(Spec.VisitParameter(st, ps[0]))
    ensures Spec.VisitParameter(st, ps[0]).Ok? ==>
      Spec.VisitParameters(st, ps) == Spec.VisitParameters(Spec.VisitParameter(st, ps[0]).value, ps[1..])
  {
  }

  class SymbolTreeBuilder {
    var arena: seq<Symbol>
    /** `_current`; None is null (before and after a pass). */
    var current: Option<Ref>
    /** What has been emitted to the diagnostic channel. */
    var diagnostics: seq<Spec.Diagnostic>

    constructor (channel: seq<Spec.Diagnostic>)
      ensures arena == [] && current == None && diagnostics == channel
    {
      arena := [];
      current := None;
      diagnostics := channel;
    }

    function Snapshot(): Spec.State
      reads this
      requires current.Some?
    {
      Spec.State(arena, current.value, diagnostics)
    }

    ghost predicate Valid()
      reads this
    {
      current.Some? && Spec.Valid(Snapshot())
    }

    /** `new X(...)`: the new symbol takes the next index. */
    method New(s: Symbol) returns (k: Ref)
      requires Valid() && Fits(s, |arena|)
      modifies this
      ensures Valid() && k == old(|arena|) && Snapshot() == Spec.Alloc(old(Snapshot()), s)
    {
      AppendKeepsWellFormed(arena, s);
      k := |arena|;
      arena := arena + [s];
    }

    /** An in-place update of symbol `i`: a dictionary add or a slot assignment. */
    method Store(i: Ref, s: Symbol)
      requires Valid() && i < |arena| && Fits(s, i)
      modifies this
      ensures Valid() && Snapshot() == Spec.Put(old(Snapshot()), i, s)
    {
      UpdateKeepsWellFormed(arena, i, s);
      arena := arena[i := s];
    }

    /** `Visit(Ast)`: returns the root. */
    method Visit(p: Program) returns (root: Result<Ref>)
      modifies this
      ensures Thrown(root) == Thrown(Spec.VisitProgram(p, old(diagnostics)))
      ensures root.Ok? ==> root.value == RootRef && current == None
      ensures root.Ok? ==> Spec.Graph(arena, diagnostics) == Spec.VisitProgram(p, old(diagnostics)).value
    {
      arena := [ProgramRoot(map[], map[]), BuiltinType(NumberTypeName)];
      current := Some(RootRef);
      // root.Add(HardcodedSymbols.NumberType)
      arena := arena[RootRef := ProgramRoot(map[NumberTypeName := NumberTypeRef], map[])];
      assert Snapshot() == Spec.InitialState(old(diagnostics));
      var thrown := VisitStatement(Block(p.statements));
      if thrown.Some? {
        return Throw(thrown.value);
      }
      current := None;
      return Ok(RootRef);
    }

    // Declarations.

    method VisitMethod(s: Stmt) returns (thrown: Option<Exception>)
      requires Valid() && s.MethodDef?
      modifies this
      ensures thrown == Thrown(Spec.VisitMethod(old(Snapshot()), s))
      ensures thrown.None? ==> Valid() && Snapshot() == Spec.VisitMethod(old(Snapshot()), s).value
      decreases s, 0
    {
      var m := s.methodDecl;
      var owner := Spec.MethodOwner(arena, current.value);
      if owner.Throw? {
        return Some(owner.exception);
      }
      var k := New(MethodNode(owner.value, m, map[], None));
      thrown := AddMethodTo(owner.value, m.name, k);
      if thrown.Some? {
        return;
      }
      current := Some(k);
      thrown := VisitParameters(m.parameters);
      if thrown.Some? {
        return;
      }
      thrown := VisitStatement(m.body);
      if thrown.Some? {
        return;
      }
      current := Some(owner.value);
    }

    /** `owner.Methods.Add(name, method)`. */
    method AddMethodTo(owner: Ref, name: string, methodRef: Ref) returns (thrown: Option<Exception>)
      requires Valid() && owner < |arena| && IsSymbolWithMethods(arena[owner])
      modifies this
      ensures thrown == Thrown(Spec.RegisterMethod(old(Snapshot()), owner, name, methodRef))
      ensures thrown.None? ==> Valid() && Snapshot() == Spec.RegisterMethod(old(Snapshot()), owner, name, methodRef).value
    {
      assert Fits(arena[owner], owner);
      match arena[owner]
      case ProgramRoot(types, methods) =>
        if name in methods {
          return Some(DuplicateKey(name));
        }
        Store(owner, ProgramRoot(types, methods[name := methodRef]));
        return None;
      case TypeNode(t) =>
        var t' := AddMethod(t, name, methodRef);
        if t'.None? {
          return Some(DuplicateKey(name));
        }
        Store(owner, TypeNode(t'.value));
        return None;
    }

    method VisitParameter(p: Parameter) returns (thrown: Option<Exception>)
      requires Valid()
      modifies this
      ensures thrown == Thrown(Spec.VisitParameter(old(Snapshot()), p))
      ensures thrown.None? ==> Valid() && Snapshot() == Spec.VisitParameter(old(Snapshot()), p).value
    {
      var c := current.value;
      var m := arena[c];
      if !m.MethodNode? {
        return Some(InvalidCast);
      }
      if p.name in m.parameterSymbols {
        return Some(DuplicateKey(p.name));
      }
      assert Fits(m, c);
      var k := New(ParameterNode(c, p));
      Store(c, m.(parameterSymbols := m.parameterSymbols[p.name := k]));
      return None;
    }

    method VisitParameters(ps: seq<Parameter>) returns (thrown: Option<Exception>)
      requires Valid()
      modifies this
      ensures thrown == Thrown(Spec.VisitParameters(old(Snapshot()), ps))
      ensures thrown.None? ==> Valid() && Snapshot() == Spec.VisitParameters(old(Snapshot()), ps).value
    {
      var i := 0;
      while i < |ps|
        invariant 0 <= i <= |ps| && Valid()
        invariant Spec.VisitParameters(old(Snapshot()), ps) == Spec.VisitParameters(Snapshot(), ps[i..])
      {
        assert ps[i..][0] == ps[i] && ps[i..][1..] == ps[i + 1..];
        ParametersUnfold(Snapshot(), ps[i..]);
        thrown := VisitParameter(ps[i]);
        if thrown.Some? {
          return;
        }
        i := i + 1;
      }
      return None;
    }

    method VisitType(s: Stmt) returns (thrown: Option<Exception>)
      requires Valid() && s.TypeDef?
      modifies this
      ensures thrown == Thrown(Spec.VisitType(old(Snapshot()), s))
      ensures thrown.None? ==> Valid() && Snapshot() == Spec.VisitType(old(Snapshot()), s).value
      decreases s, 0
    {
      var c := current.value;
      var parent := ParentOf(arena[c]);
      if parent.None? {
        return Some(NullReference);
      }
      assert Fits(arena[c], c);
      if !arena[parent.value].ProgramRoot? {
        return Some(InvalidCast);
      }
      var root := parent.value;
      var k := New(TypeNode(NewTypeSymbol(root, s.typeDecl)));
      // root.Add(symbol)
      assert Fits(arena[root], root);
      var types := arena[root].types;
      if s.typeDecl.name in types {
        return Some(DuplicateKey(s.typeDecl.name));
      }
      Store(root, ProgramRoot(types[s.typeDecl.name := k], arena[root].methods));
      current := Some(k);
      thrown := VisitStatements(s.typeDecl.members);
      if thrown.Some? {
        return;
      }
      current := Some(root);
    }

    method VisitField(s: Stmt) returns (thrown: Option<Exception>)
      requires Valid() && s.FieldDef?
      modifies this
      ensures thrown == Thrown(Spec.VisitField(old(Snapshot()), s))
      ensures thrown.None? ==> Valid() && Snapshot() == Spec.VisitField(old(Snapshot()), s).value
    {
      var c, f := current.value, s.field;
      if arena[c].TypeNode? {
        assert Fits(arena[c], c);
        var t' := AddField(arena[c].t, f.name, |arena|);
        if t'.None? {
          return Some(DuplicateKey(f.name));
        }
        var k := New(FieldNode(c, f, None));
        Store(c, TypeNode(t'.value));
        current := Some(k);
        var init := VisitOptional(f.initValue);
        Store(k, FieldNode(c, f, init));
        current := Some(c);
        return None;
      }
      var isSingleStatement := IsSymbolWithAStatement(arena[c]);
      var k := New(VariableNode(c, f, None));
      current := Some(k);
      var init := VisitOptional(f.initValue);
      Store(k, VariableNode(c, f, init));
      current := Some(c);
      if isSingleStatement {
        diagnostics := diagnostics + [Spec.FieldSingleStatement(f)];
      }
      return None;
    }

    // Statements.

    method VisitStatement(s: Stmt) returns (thrown: Option<Exception>)
      requires Valid()
      modifies this
      ensures thrown == Thrown(Spec.VisitStatement(old(Snapshot()), s))
      ensures thrown.None? ==> Valid() && Snapshot() == Spec.VisitStatement(old(Snapshot()), s).value
      decreases s, 1
    {
      match s
      case Block(_) => thrown := VisitBlock(s);
      case MethodDef(_) => thrown := VisitMethod(s);
      case TypeDef(_) => thrown := VisitType(s);
      case FieldDef(_) => thrown := VisitField(s);
      case FieldAssignation(_, _) => thrown := VisitFieldAssignation(s);
      case If(_, _) => thrown := VisitIf(s);
      case Return(_) => thrown := VisitReturn(s);
      case MethodCallStatement(_) => thrown := VisitMethodCallStatement(s);
    }

    method VisitStatements(ss: seq<Stmt>) returns (thrown: Option<Exception>)
      requires Valid()
      modifies this
      ensures thrown == Thrown(Spec.VisitStatements(old(Snapshot()), ss))
      ensures thrown.None? ==> Valid() && Snapshot() == Spec.VisitStatements(old(Snapshot()), ss).value
      decreases ss
    {
      var i := 0;
      while i < |ss|
        invariant 0 <= i <= |ss| && Valid()
        invariant Spec.VisitStatements(old(Snapshot()), ss) == Spec.VisitStatements(Snapshot(), ss[i..])
      {
        assert ss[i..][1..] == ss[i + 1..];
        thrown := VisitStatement(ss[i]);
        if thrown.Some? {
          return;
        }
        i := i + 1;
      }
      return None;
    }

    method VisitBlock(s: Stmt) returns (thrown: Option<Exception>)
      requires Valid() && s.Block?
      modifies this
      ensures thrown == Thrown(Spec.VisitBlock(old(Snapshot()), s))
      ensures thrown.None? ==> Valid() && Snapshot() == Spec.VisitBlock(old(Snapshot()), s).value
      decreases s, 0
    {
      var c := current.value;
      var k := New(BlockNode(c));
      current := Some(k);
      thrown := VisitStatements(s.statements);
      if thrown.Some? {
        return;
      }
      current := Some(c);
    }

    method VisitFieldAssignation(s: Stmt) returns (thrown: Option<Exception>)
      requires Valid() && s.FieldAssignation?
      modifies this
      ensures thrown == Thrown(Spec.VisitFieldAssignation(old(Snapshot()), s))
      ensures thrown.None? ==> Valid() && Snapshot() == Spec.VisitFieldAssignation(old(Snapshot()), s).value
    {
      var prev := current.value;
      if !IsStatementSymbol(arena[prev]) {
        return Some(InvalidCast);
      }
      var k := New(FieldAssignationNode(prev, None, None));
      current := Some(k);
      var owner := VisitExpression(s.fieldSelector);
      if !arena[owner].IdentifierValueNode? {
        return Some(InvalidCast);
      }
      Store(k, FieldAssignationNode(prev, Some(owner), None));
      var value := VisitExpression(s.newFieldValue);
      Store(k, FieldAssignationNode(prev, Some(owner), Some(value)));
      current := Some(prev);
      return None;
    }

    method VisitIf(s: Stmt) returns (thrown: Option<Exception>)
      requires Valid() && s.If?
      modifies this
      ensures thrown == Thrown(Spec.VisitIf(old(Snapshot()), s))
      ensures thrown.None? ==> Valid() && Snapshot() == Spec.VisitIf(old(Snapshot()), s).value
      decreases s, 0
    {
      var prev := current.value;
      if !IsStatementSymbol(arena[prev]) {
        return Some(InvalidCast);
      }
      var k := New(IfNode(prev, None));
      current := Some(k);
      var cond := VisitExpression(s.condition);
      Store(k, IfNode(prev, Some(cond)));
      thrown := VisitStatement(s.theStatement);
      if thrown.Some? {
        return;
      }
      current := Some(prev);
    }

    method VisitReturn(s: Stmt) returns (thrown: Option<Exception>)
      requires Valid() && s.Return?
      modifies this
      ensures thrown == Thrown(Spec.VisitReturn(old(Snapshot()), s))
      ensures thrown.None? ==> Valid() && Snapshot() == Spec.VisitReturn(old(Snapshot()), s).value
    {
      var prev := current.value;
      var k := New(ReturnNode(prev, None));
      current := Some(k);
      var value := VisitOptional(s.returnedValue);
      Store(k, ReturnNode(prev, value));
      current := Some(prev);
      return None;
    }

    method VisitMethodCallStatement(s: Stmt) returns (thrown: Option<Exception>)
      requires Valid() && s.MethodCallStatement?
      modifies this
      ensures thrown == Thrown(Spec.VisitMethodCallStatement(old(Snapshot()), s))
      ensures thrown.None? ==> Valid() && Snapshot() == Spec.VisitMethodCallStatement(old(Snapshot()), s).value
    {
      var prev := current.value;
      var k := New(MethodCallStatementNode(prev, None));
      current := Some(k);
      var call := VisitExpression(s.methodCallExpression);
      Store(k, MethodCallStatementNode(prev, Some(call)));
      current := Some(prev);
      return None;
    }

    // Expressions.

    method VisitExpression(e: Expr) returns (r: Ref)
      requires Valid()
      modifies this
      ensures Valid() && (Snapshot(), r) == Spec.VisitExpression(old(Snapshot()), e)
      decreases e, 1
    {
      match e
      case IdentifierValue(_) => r := VisitIdentifierValue(e);
      case Number(_) => r := VisitNumber(e);
      case FuncCall(_, _) => r := VisitFuncCall(e);
      case Operator(_, _, _) => r := VisitOperator(e);
    }

    method VisitOptional(e: Option<Expr>) returns (r: Option<Ref>)
      requires Valid()
      modifies this
      ensures Valid() && (Snapshot(), r) == Spec.VisitOptional(old(Snapshot()), e)
    {
      match e
      case None => r := None;
      case Some(x) =>
        var v := VisitExpression(x);
        r := Some(v);
    }

    method VisitFuncCall(e: Expr) returns (r: Ref)
      requires Valid() && e.FuncCall?
      modifies this
      ensures Valid() && (Snapshot(), r) == Spec.VisitFuncCall(old(Snapshot()), e)
      decreases e, 0
    {
      var prev := current.value;
      r := New(FunctionCallNode(prev, e, None));
      current := Some(r);
      var args := VisitArguments(e.arguments);
      Store(r, FunctionCallNode(prev, e, Some(args)));
      current := Some(prev);
    }

    /** `methodCall.Arguments.Select(Visit).ToList()`. */
    method VisitArguments(args: seq<Expr>) returns (refs: seq<Ref>)
      requires Valid()
      modifies this
      ensures Valid() && (Snapshot(), refs) == Spec.VisitArguments(old(Snapshot()), args)
      decreases args
    {
      refs := [];
      var i := 0;
      assert args[i..] == args;
      while i < |args|
        invariant 0 <= i <= |args| && Valid()
        invariant Spec.VisitArguments(old(Snapshot()), args).0 == Spec.VisitArguments(Snapshot(), args[i..]).0
        invariant Spec.VisitArguments(old(Snapshot()), args).1 == refs + Spec.VisitArguments(Snapshot(), args[i..]).1
      {
        assert args[i..][1..] == args[i + 1..];
        ghost var before := Snapshot();
        var a := VisitExpression(args[i]);
        ghost var rest := Spec.VisitArguments(Snapshot(), args[i + 1..]);
        assert Spec.VisitArguments(before, args[i..]) == (rest.0, [a] + rest.1);
        assert (refs + [a]) + rest.1 == refs + ([a] + rest.1);
        refs := refs + [a];
        i := i + 1;
      }
      assert args[i..] == [];
      assert refs + [] == refs;
    }

    method VisitIdentifierValue(e: Expr) returns (r: Ref)
      requires Valid() && e.IdentifierValue?
      modifies this
      ensures Valid() && (Snapshot(), r) == Spec.VisitIdentifierValue(old(Snapshot()), e)
    {
      r := New(IdentifierValueNode(current.value, e.name));
    }

    method VisitNumber(e: Expr) returns (r: Ref)
      requires Valid() && e.Number?
      modifies this
      ensures Valid() && (Snapshot(), r) == Spec.VisitNumber(old(Snapshot()), e)
    {
      r := New(NumberLiteralNode(current.value, e.value));
    }

    method VisitOperator(e: Expr) returns (r: Ref)
      requires Valid() && e.Operator?
      modifies this
      ensures Valid() && (Snapshot(), r) == Spec.VisitOperator(old(Snapshot()), e)
      decreases e, 0
    {
      var prev := current.value;
      r := New(FunctionCallNode(prev, e, None));
      var _ := VisitExpression(e.left);
      current := Some(r);
      var right := VisitExpression(e.right);
      Store(r, FunctionCallNode(prev, e, Some([right])));
      current := Some(prev);
    }
  }
}
