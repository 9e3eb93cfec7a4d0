/**
 * The expression trees of src/ir.h, with every expression that holds no other expression
 * collapsed into one leaf, and their plain recursive traversal.
 */
module Exprs {
  datatype Expr =
    | Leaf(op: int)
    | Block(sig: int, exprs: seq<Expr>)
    | Loop(sig: int, exprs: seq<Expr>)
    | If(sig: int, then_: seq<Expr>, else_: seq<Expr>)
    | Try(sig: int, block: seq<Expr>, catch_: seq<Expr>)

  /** The ExprVisitor::Delegate functions. */
  datatype Hook =
    | On | BeginBlock | EndBlock | BeginLoop | EndLoop | BeginIf | AfterIfTrue | EndIf | BeginTry | OnCatch | EndTry

  datatype Callback = Callback(hook: Hook, expr: Expr)

  /** The callbacks a recursive traversal makes. */
  function Trace(e: Expr): (t: seq<Callback>)
    ensures t != [] && t[0] == Callback(Opening(e), e)
    decreases e, 0
  {
    [Callback(Opening(e), e)] +
    match e
    case Leaf(_) => []
    case Block(_, es) => TraceList(es) + [Callback(EndBlock, e)]
    case Loop(_, es) => TraceList(es) + [Callback(EndLoop, e)]
    case If(_, ts, fs) => TraceList(ts) + [Callback(AfterIfTrue, e)] + TraceList(fs) + [Callback(EndIf, e)]
    case Try(_, bs, cs) => TraceList(bs) + [Callback(OnCatch, e)] + TraceList(cs) + [Callback(EndTry, e)]
  }

  function TraceList(es: seq<Expr>): seq<Callback>
    decreases es, 1
  {
    if es == [] then [] else Trace(es[0]) + TraceList(es[1..])
  }

  function Opening(e: Expr): Hook {
    match e
    case Leaf(_) => On
    case Block(_, _) => BeginBlock
    case Loop(_, _) => BeginLoop
    case If(_, _, _) => BeginIf
    case Try(_, _, _) => BeginTry
  }
}
