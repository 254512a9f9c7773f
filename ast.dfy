/** The syntax tree the builder consumes. It is produced by the parser, which
    is not part of this model; only the shapes the builder visits are kept. */
module Ast {
  import opened Common

  datatype Expr =
    | IdentifierValue(name: string)
    | Number(value: int)
    | FuncCall(name: string, arguments: seq<Expr>)
    | Operator(op: string, left: Expr, right: Expr)

  datatype Parameter = Parameter(name: string, typeName: string)

  /** One construct for both an object field and a local variable. */
  datatype FieldDecl = FieldDecl(name: string, typeName: string, initValue: Option<Expr>)

  datatype Stmt =
    | Block(statements: seq<Stmt>)
    | MethodDef(methodDecl: MethodDecl)
    | TypeDef(typeDecl: TypeDecl)
    | FieldDef(field: FieldDecl)
    | FieldAssignation(fieldSelector: Expr, newFieldValue: Expr)
    | If(condition: Expr, theStatement: Stmt)
    | Return(returnedValue: Option<Expr>)
    | MethodCallStatement(methodCallExpression: Expr)

  datatype MethodDecl = MethodDecl(name: string, returnType: string, parameters: seq<Parameter>, body: Stmt)

  datatype TypeDecl = TypeDecl(name: string, members: seq<Stmt>)

  /** The compilation unit: its top-level statements. */
  datatype Program = Program(statements: seq<Stmt>)

  /** A call on a receiver object (`target.name(arguments)`). */
  datatype MethodCall = MethodCall(callTarget: Expr, name: string, arguments: seq<Expr>)

  /** Number of syntax nodes (declarations, statements, parameters and
      expressions) in a tree: the number of symbols a successful visit builds. */
  function ExprSize(e: Expr): nat {
    match e
    case IdentifierValue(_) => 1
    case Number(_) => 1
    case FuncCall(_, args) => 1 + ExprsSize(args)
    case Operator(_, l, r) => 1 + ExprSize(l) + ExprSize(r)
  }

  function ExprsSize(es: seq<Expr>): nat {
    if es == [] then 0 else ExprSize(es[0]) + ExprsSize(es[1..])
  }

  function OptionalExprSize(e: Option<Expr>): nat {
    match e
    case None => 0
    case Some(x) => ExprSize(x)
  }

  function StmtSize(s: Stmt): nat {
    match s
    case Block(ss) => 1 + StmtsSize(ss)
    case MethodDef(m) => 1 + |m.parameters| + StmtSize(m.body)
    case TypeDef(t) => 1 + StmtsSize(t.members)
    case FieldDef(f) => 1 + OptionalExprSize(f.initValue)
    case FieldAssignation(sel, v) => 1 + ExprSize(sel) + ExprSize(v)
    case If(c, body) => 1 + ExprSize(c) + StmtSize(body)
    case Return(v) => 1 + OptionalExprSize(v)
    case MethodCallStatement(e) => 1 + ExprSize(e)
  }

  function StmtsSize(ss: seq<Stmt>): nat {
    if ss == [] then 0 else StmtSize(ss[0]) + StmtsSize(ss[1..])
  }

  /** The sizes of the first `i` expressions of a list, peeling off the first one. */
  lemma ExprsSizePrefix(es: seq<Expr>)
    requires |es| > 0
    ensures ExprsSize(es[..0]) == 0
    ensures forall i :: 1 <= i <= |es| ==> ExprsSize(es[..i]) == ExprSize(es[0]) + ExprsSize(es[1..][..i - 1])
  {
    assert es[..0] == [];
    forall i | 1 <= i <= |es|
      ensures ExprsSize(es[..i]) == ExprSize(es[0]) + ExprsSize(es[1..][..i - 1])
    {
      assert es[..i][0] == es[0];
      assert es[..i][1..] == es[1..][..i - 1];
    }
  }

  /** The sizes of the first `i` statements of a list, peeling off the first one. */
  lemma StmtsSizePrefix(ss: seq<Stmt>)
    requires |ss| > 0
    ensures StmtsSize(ss[..0]) == 0
    ensures forall i :: 1 <= i <= |ss| ==> StmtsSize(ss[..i]) == StmtSize(ss[0]) + StmtsSize(ss[1..][..i - 1])
  {
    assert ss[..0] == [];
    forall i | 1 <= i <= |ss|
      ensures StmtsSize(ss[..i]) == StmtSize(ss[0]) + StmtsSize(ss[1..][..i - 1])
    {
      assert ss[..i][0] == ss[0];
      assert ss[..i][1..] == ss[1..][..i - 1];
    }
  }

  /** The names of a parameter list. */
  function ParameterNames(ps: seq<Parameter>): set<string> {
    if ps == [] then {} else {ps[0].name} + ParameterNames(ps[1..])
  }

  /** No two parameters of the list share a name. */
  predicate DistinctParameterNames(ps: seq<Parameter>) {
    forall i, j :: 0 <= i < j < |ps| ==> ps[i].name != ps[j].name
  }

  /** A name is among the parameter names exactly when some parameter has it. */
  lemma {:induction false} InParameterNames(ps: seq<Parameter>, n: string)
    ensures n in ParameterNames(ps) <==> exists i :: 0 <= i < |ps| && ps[i].name == n
    decreases ps
  {
    if ps != [] {
      InParameterNames(ps[1..], n);
      if n in ParameterNames(ps[1..]) {
        var i :| 0 <= i < |ps[1..]| && ps[1..][i].name == n;
        assert ps[i + 1].name == n;
      }
      if exists i :: 0 <= i < |ps| && ps[i].name == n {
        var i :| 0 <= i < |ps| && ps[i].name == n;
        if i > 0 {
          assert ps[1..][i - 1].name == n;
        }
      }
    }
  }

  /** A list has distinct names exactly when its tail does and its first
      name does not recur in the tail. */
  lemma DistinctParameterNamesStep(ps: seq<Parameter>)
    requires ps != []
    ensures DistinctParameterNames(ps) <==> DistinctParameterNames(ps[1..]) && ps[0].name !in ParameterNames(ps[1..])
  {
    InParameterNames(ps[1..], ps[0].name);
    if DistinctParameterNames(ps[1..]) && ps[0].name !in ParameterNames(ps[1..]) {
      forall i, j | 0 <= i < j < |ps|
        ensures ps[i].name != ps[j].name
      {
        assert ps[j] == ps[1..][j - 1];
        if i > 0 {
          assert ps[i] == ps[1..][i - 1];
        }
      }
    }
    if DistinctParameterNames(ps) {
      forall i, j | 0 <= i < j < |ps[1..]|
        ensures ps[1..][i].name != ps[1..][j].name
      {
        assert ps[1..][i] == ps[i + 1] && ps[1..][j] == ps[j + 1];
      }
    }
  }
}
