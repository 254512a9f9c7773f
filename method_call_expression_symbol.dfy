/** A call on a receiver object in the symbol graph. Its parent and syntax
    node are fixed at construction; the argument list, the target method and
    the receiver expression are deferred slots that a later resolution pass
    fills through internal setters. */
module MethodCallExpressionSymbols {
  import opened Common
  import Ast

  /** There is no separate return-type slot: the return type is read through
      the target method (`SymbolGraph.ReturnType`). */
  datatype MethodCallExpressionSymbol = MethodCallExpressionSymbol(
    parent: Ref,
    ast: Ast.MethodCall,
    arguments: Option<seq<Ref>>,
    targetMethod: Option<Ref>,
    callTarget: Option<Ref>)

  /** `new MethodCallExpressionSymbol(parent, ast)`. */
  function NewMethodCallExpressionSymbol(parent: Ref, ast: Ast.MethodCall): (c: MethodCallExpressionSymbol)
    ensures c.parent == parent && c.ast == ast
    ensures c.arguments.None? && c.targetMethod.None? && c.callTarget.None?
  {
    MethodCallExpressionSymbol(parent, ast, None, None, None)
  }

  /** `Parent` and `Ast` have no setter. */
  ghost predicate SameIdentity(c: MethodCallExpressionSymbol, c': MethodCallExpressionSymbol) {
    c'.parent == c.parent && c'.ast == c.ast
  }

  /** The internal setter of `Arguments`. */
  function SetArguments(c: MethodCallExpressionSymbol, arguments: seq<Ref>): (c': MethodCallExpressionSymbol)
    ensures SameIdentity(c, c') && c'.arguments == Some(arguments)
    ensures c'.targetMethod == c.targetMethod && c'.callTarget == c.callTarget
  {
    c.(arguments := Some(arguments))
  }

  /** The internal setter of `TargetMethod`. */
  function SetTargetMethod(c: MethodCallExpressionSymbol, target: Ref): (c': MethodCallExpressionSymbol)
    ensures SameIdentity(c, c') && c'.targetMethod == Some(target)
    ensures c'.arguments == c.arguments && c'.callTarget == c.callTarget
  {
    c.(targetMethod := Some(target))
  }

  /** The internal setter of `CallTarget`. */
  function SetCallTarget(c: MethodCallExpressionSymbol, receiver: Ref): (c': MethodCallExpressionSymbol)
    ensures SameIdentity(c, c') && c'.callTarget == Some(receiver)
    ensures c'.arguments == c.arguments && c'.targetMethod == c.targetMethod
  {
    c.(callTarget := Some(receiver))
  }
}
