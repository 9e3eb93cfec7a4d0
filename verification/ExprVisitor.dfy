/** The three-stack walk of src/expr-visitor.cc makes the callbacks of the recursive traversal. */
module ExprVisitor {
  import opened Common
  import opened Exprs

  /** A delegate that answers each callback by looking at all the callbacks made so far. */
  class Delegate {
    const accepts: seq<Callback> -> bool
    var log: seq<Callback>

    constructor (accepts: seq<Callback> -> bool)
      ensures this.accepts == accepts && log == []
    {
      this.accepts := accepts;
      log := [];
    }

    method Call(hook: Hook, expr: Expr) returns (r: Result<()>)
      modifies this
      ensures log == old(log) + [Callback(hook, expr)]
      ensures r == if accepts(log) then Ok(()) else Error
    {
      log := log + [Callback(hook, expr)];
      r := if accepts(log) then Ok(()) else Error;
    }
  }

  /** Makes calls one by one, up to the first that fails. */
  ghost function Drive(accepts: seq<Callback> -> bool, log: seq<Callback>, calls: seq<Callback>)
    : (o: (Result<()>, seq<Callback>))
    decreases |calls|
  {
    if calls == [] then (Ok(()), log)
    else if !accepts(log + [calls[0]]) then (Error, log + [calls[0]])
    else Drive(accepts, log + [calls[0]], calls[1..])
  }

  /** All calls were made, or exactly the first k and the k-th is the first that failed. */
  lemma {:induction false} DriveStopsAtFirstFailure(accepts: seq<Callback> -> bool, log: seq<Callback>,
                                                    calls: seq<Callback>)
    ensures var (r, l) := Drive(accepts, log, calls);
            var k := |l| - |log|;
            0 <= k <= |calls| && l == log + calls[..k] &&
            (r.Ok? <==> k == |calls| && forall i :: 0 < i <= |calls| ==> accepts(log + calls[..i])) &&
            (r.Error? ==> k > 0 && !accepts(l) && forall i :: 0 < i < k ==> accepts(log + calls[..i]))
    decreases |calls|
  {
    if calls != [] {
      var log' := log + [calls[0]];
      assert log + calls[..1] == log';
      if accepts(log') {
        DriveStopsAtFirstFailure(accepts, log', calls[1..]);
        forall i | 0 < i <= |calls| ensures log + calls[..i] == log' + calls[1..][..i - 1] {
        }
        var (r, l) := Drive(accepts, log', calls[1..]);
        var k := |l| - |log|;
        assert calls[..k] == [calls[0]] + calls[1..][..k - 1];
        assert log + calls[..|calls|] == log' + calls[1..];
        if r.Ok? {
          forall i | 0 < i <= |calls| ensures accepts(log + calls[..i]) {
            if i > 1 {
              assert accepts(log' + calls[1..][..i - 1]);
            }
          }
        }
      }
    }
  }

  lemma {:induction false} DriveAppend(accepts: seq<Callback> -> bool, log: seq<Callback>, a: seq<Callback>,
                                       b: seq<Callback>)
    ensures var (r, l) := Drive(accepts, log, a);
            Drive(accepts, log, a + b) == if r.Ok? then Drive(accepts, l, b) else (r, l)
    decreases |a|
  {
    if a == [] {
      assert a + b == b;
    } else {
      assert (a + b)[1..] == a[1..] + b;
      DriveAppend(accepts, log + [a[0]], a[1..], b);
    }
  }

  datatype State = Default | BlockState | IfTrue | IfFalse | LoopState | TryState | Catch

  /** The type the state's cast needs. */
  ghost predicate Fits(state: State, e: Expr) {
    match state
    case Default => true
    case BlockState => e.Block?
    case LoopState => e.Loop?
    case IfTrue | IfFalse => e.If?
    case TryState | Catch => e.Try?
  }

  /** The list a state walks. */
  function ListOf(state: State, e: Expr): seq<Expr>
    requires state != Default && Fits(state, e)
  {
    match state
    case BlockState => e.exprs
    case LoopState => e.exprs
    case IfTrue => e.then_
    case IfFalse => e.else_
    case TryState => e.block
    case Catch => e.catch_
  }

  /** The callbacks after the last element of a state's list. */
  ghost function Closing(state: State, e: Expr): (t: seq<Callback>)
    requires state != Default && Fits(state, e)
    ensures t != []
  {
    match state
    case BlockState => [Callback(EndBlock, e)]
    case LoopState => [Callback(EndLoop, e)]
    case IfTrue => [Callback(AfterIfTrue, e)] + TraceList(e.else_) + [Callback(EndIf, e)]
    case IfFalse => [Callback(EndIf, e)]
    case TryState => [Callback(OnCatch, e)] + TraceList(e.catch_) + [Callback(EndTry, e)]
    case Catch => [Callback(EndTry, e)]
  }

  /** The callback at the end of a state's list. */
  function ClosingHook(state: State): (h: Hook)
    requires state != Default
  {
    match state
    case BlockState => EndBlock
    case LoopState => EndLoop
    case IfTrue => AfterIfTrue
    case IfFalse => EndIf
    case TryState => OnCatch
    case Catch => EndTry
  }

  /** The state an expression's first list is walked in. */
  ghost predicate Opens(s: State, e: Expr) {
    match e
    case Leaf(_) => false
    case Block(_, _) => s == BlockState
    case Loop(_, _) => s == LoopState
    case If(_, _, _) => s == IfTrue
    case Try(_, _, _) => s == TryState
  }

  lemma AfterOpening(s: State, e: Expr, todo: seq<Callback>)
    requires Opens(s, e)
    ensures (Trace(e) + todo)[1..] == TraceList(ListOf(s, e)) + Closing(s, e) + todo
  {
    hide TraceList;
    match e {
      case Block(_, es) =>
        Rebracket(Callback(BeginBlock, e), TraceList(es), Callback(EndBlock, e), [], [], todo);
      case Loop(_, es) =>
        Rebracket(Callback(BeginLoop, e), TraceList(es), Callback(EndLoop, e), [], [], todo);
      case If(_, ts, fs) =>
        Rebracket(Callback(BeginIf, e), TraceList(ts), Callback(AfterIfTrue, e), TraceList(fs), [Callback(EndIf, e)],
                  todo);
      case Try(_, bs, cs) =>
        Rebracket(Callback(BeginTry, e), TraceList(bs), Callback(OnCatch, e), TraceList(cs), [Callback(EndTry, e)],
                  todo);
    }
  }

  lemma Rebracket(o: Callback, a: seq<Callback>, b: Callback, c: seq<Callback>, d: seq<Callback>, todo: seq<Callback>)
    ensures ([o] + (a + [b] + c + d) + todo)[1..] == a + ([b] + c + d) + todo
    ensures c == d == [] ==> ([o] + (a + [b]) + todo)[1..] == a + [b] + todo
  {
  }

  lemma AfterLeaf(e: Expr, todo: seq<Callback>)
    requires e.Leaf?
    ensures (Trace(e) + todo)[1..] == todo
  {
  }

  /** The three stacks agree: every state fits its expression, and each list state has an iterator into its list. */
  ghost predicate Agree(states: seq<State>, exprs: seq<Expr>, iters: seq<nat>)
    decreases |states|
  {
    if states == [] then
      exprs == [] && iters == []
    else
      |exprs| == |states| &&
      var s, e := states[|states| - 1], exprs[|exprs| - 1];
      Fits(s, e) &&
      if s == Default then
        Agree(states[..|states| - 1], exprs[..|exprs| - 1], iters)
      else
        iters != [] && iters[|iters| - 1] <= |ListOf(s, e)| &&
        Agree(states[..|states| - 1], exprs[..|exprs| - 1], iters[..|iters| - 1])
  }

  /** The callbacks still to make, from the top of the stacks down. */
  ghost function Rest(states: seq<State>, exprs: seq<Expr>, iters: seq<nat>): seq<Callback>
    requires Agree(states, exprs, iters)
    decreases |states|
  {
    if states == [] then [] else
    var s, e := states[|states| - 1], exprs[|exprs| - 1];
    if s == Default then
      Trace(e) + Rest(states[..|states| - 1], exprs[..|exprs| - 1], iters)
    else
      TraceList(ListOf(s, e)[iters[|iters| - 1]..]) + Closing(s, e) +
      Rest(states[..|states| - 1], exprs[..|exprs| - 1], iters[..|iters| - 1])
  }

  lemma PushedDefault(states: seq<State>, exprs: seq<Expr>, iters: seq<nat>, e: Expr)
    requires Agree(states, exprs, iters)
    ensures Agree(states + [Default], exprs + [e], iters)
    ensures Rest(states + [Default], exprs + [e], iters) == Trace(e) + Rest(states, exprs, iters)
  {
    hide Trace;
    Lengths(states, exprs, iters);
    assert (states + [Default])[..|states|] == states && (exprs + [e])[..|exprs|] == exprs;
  }

  lemma PushedList(states: seq<State>, exprs: seq<Expr>, iters: seq<nat>, s: State, e: Expr, i: nat)
    requires Agree(states, exprs, iters) && s != Default && Fits(s, e) && i <= |ListOf(s, e)|
    ensures Agree(states + [s], exprs + [e], iters + [i])
    ensures Rest(states + [s], exprs + [e], iters + [i]) ==
            TraceList(ListOf(s, e)[i..]) + Closing(s, e) + Rest(states, exprs, iters)
  {
    hide Trace, TraceList, Closing, Fits, ListOf;
    Lengths(states, exprs, iters);
    assert (states + [s])[..|states|] == states && (exprs + [e])[..|exprs|] == exprs;
    assert (iters + [i])[..|iters|] == iters;
  }

  /** Advancing the top iterator leaves one child less to do. */
  lemma NextPushed(states: seq<State>, exprs: seq<Expr>, iters: seq<nat>, s: State, e: Expr)
    requires Agree(states, exprs, iters) && states != [] && states[|states| - 1] == s && exprs[|states| - 1] == e
    requires s != Default && Fits(s, e) && iters != [] && iters[|iters| - 1] < |ListOf(s, e)|
    ensures var i := iters[|iters| - 1];
            var iters' := iters[..|iters| - 1] + [i + 1];
            Agree(states, exprs, iters') && Rest(states, exprs, iters) ==
            Trace(ListOf(s, e)[i]) + Rest(states, exprs, iters')
  {
    hide Rest, Trace, TraceList, Closing, Fits, ListOf;
    var m, n := |states| - 1, |iters| - 1;
    var ss, es, ns, i := states[..m], exprs[..m], iters[..n], iters[n];
    assert states == ss + [s] && exprs == es + [e] && iters == ns + [i];
    assert Agree(ss, es, ns);
    hide Agree;
    PushedList(ss, es, ns, s, e, i);
    PushedList(ss, es, ns, s, e, i + 1);
    TraceNext(ListOf(s, e), i);
    Associate(Trace(ListOf(s, e)[i]), TraceList(ListOf(s, e)[i + 1..]), Closing(s, e), Rest(ss, es, ns));
  }

  lemma Associate(a: seq<Callback>, b: seq<Callback>, c: seq<Callback>, d: seq<Callback>)
    ensures (a + b) + c + d == a + (b + c + d)
  {
  }

  lemma TraceNext(list: seq<Expr>, i: nat)
    requires i < |list|
    ensures TraceList(list[i..]) == Trace(list[i]) + TraceList(list[i + 1..])
  {
    hide Trace;
    assert list[i..][1..] == list[i + 1..];
  }

  lemma Lengths(states: seq<State>, exprs: seq<Expr>, iters: seq<nat>)
    requires Agree(states, exprs, iters)
    ensures |exprs| == |states|
  {
  }

  class ExprVisitor {
    const delegate: Delegate
    var stateStack: seq<State>
    var exprStack: seq<Expr>
    var exprIterStack: seq<nat>

    constructor (delegate: Delegate)
      ensures this.delegate == delegate && Valid() && Todo() == []
    {
      this.delegate := delegate;
      stateStack, exprStack, exprIterStack := [], [], [];
    }

    ghost predicate Valid()
      reads this
    {
      Agree(stateStack, exprStack, exprIterStack)
    }

    ghost function Todo(): seq<Callback>
      requires Valid()
      reads this
    {
      Rest(stateStack, exprStack, exprIterStack)
    }

    /** The top of the stacks is this state and expression. */
    ghost predicate Top(s: State, e: Expr)
      reads this
    {
      |stateStack| == |exprStack| > 0 && stateStack[|stateStack| - 1] == s && exprStack[|exprStack| - 1] == e
    }

    method PushDefault(expr: Expr)
      requires Valid()
      modifies this
      ensures Valid() && Top(Default, expr) && Todo() == Trace(expr) + old(Todo())
    {
      hide Rest, Agree;
      PushedDefault(stateStack, exprStack, exprIterStack, expr);
      Lengths(stateStack, exprStack, exprIterStack);
      stateStack := stateStack + [Default];
      exprStack := exprStack + [expr];
    }

    method PopDefault(ghost expr: Expr)
      requires Valid() && Top(Default, expr)
      modifies this
      ensures Valid() && old(Todo()) == Trace(expr) + Todo()
    {
      stateStack := stateStack[..|stateStack| - 1];
      exprStack := exprStack[..|exprStack| - 1];
    }

    method PushExprlist(state: State, expr: Expr)
      requires Valid() && state != Default && Fits(state, expr)
      modifies this
      ensures Valid() && Top(state, expr)
      ensures Todo() == TraceList(ListOf(state, expr)) + Closing(state, expr) + old(Todo())
    {
      hide Rest, Agree;
      PushedList(stateStack, exprStack, exprIterStack, state, expr, 0);
      Lengths(stateStack, exprStack, exprIterStack);
      stateStack := stateStack + [state];
      exprStack := exprStack + [expr];
      exprIterStack := exprIterStack + [0];
      assert ListOf(state, expr)[0..] == ListOf(state, expr);
    }

    method PopExprlist(ghost state: State, ghost expr: Expr)
      requires Valid() && Top(state, expr) && state != Default && Fits(state, expr) && AtEnd(state, expr)
      modifies this
      ensures Valid() && old(Todo()) == Closing(state, expr) + Todo()
    {
      hide Trace, Closing, Fits, ListOf;
      stateStack := stateStack[..|stateStack| - 1];
      exprStack := exprStack[..|exprStack| - 1];
      exprIterStack := exprIterStack[..|exprIterStack| - 1];
    }

    /** The top iterator is at the end of the top state's list. */
    ghost predicate AtEnd(state: State, expr: Expr)
      requires state != Default && Fits(state, expr)
      reads this
    {
      exprIterStack != [] && exprIterStack[|exprIterStack| - 1] == |ListOf(state, expr)|
    }

    /** Pushes the element under the top iterator and advances it, unless it is at the end. */
    method PushNext(state: State, expr: Expr) returns (found: bool)
      requires Valid() && Top(state, expr) && state != Default && Fits(state, expr)
      modifies this
      ensures Valid() && Todo() == old(Todo())
      ensures found <==> !old(AtEnd(state, expr))
      ensures if found then Top(Default, ListOf(state, expr)[old(exprIterStack[|exprIterStack| - 1])])
              else Top(state, expr) && AtEnd(state, expr)
    {
      hide Rest, Trace, Closing, Fits, ListOf;
      var n := |exprIterStack| - 1;
      var list := ListOf(state, expr);
      var iter := exprIterStack[n];
      found := iter != |list|;
      if found {
        hide Agree;
        NextPushed(stateStack, exprStack, exprIterStack, state, expr);
        exprIterStack := exprIterStack[..n] + [iter + 1];
        PushDefault(list[iter]);
      }
    }

    /** One delegate call made out of what was to be done. */
    ghost predicate Followed(log: seq<Callback>, todo: seq<Callback>, r: Result<()>)
      reads this, delegate
    {
      if r.Ok? then
        Valid() && |Todo()| < |todo| &&
        Drive(delegate.accepts, delegate.log, Todo()) == Drive(delegate.accepts, log, todo)
      else
        Drive(delegate.accepts, log, todo) == (Error, delegate.log)
    }

    /** After log these callbacks were made, and r is what the last one was answered. */
    ghost predicate Called(log: seq<Callback>, calls: seq<Callback>, r: Result<()>)
      reads delegate
    {
      delegate.log == log + calls && (r.Ok? <==> delegate.accepts(delegate.log))
    }

    /** The first of the calls was made and the rest are still to do. */
    lemma Made(log: seq<Callback>, todo: seq<Callback>, r: Result<()>)
      requires todo != [] && delegate.log == log + [todo[0]]
      requires r == if delegate.accepts(delegate.log) then Ok(()) else Error
      requires r.Ok? ==> Valid() && todo[1..] == Todo()
      ensures Followed(log, todo, r)
    {
      hide Rest, Agree;
    }

    /** expr has been popped; its first callback is made and its list pushed. */
    method HandleDefaultState(expr: Expr) returns (r: Result<()>)
      requires Valid()
      modifies this, delegate
      ensures Called(old(delegate.log), [Callback(Opening(expr), expr)], r)
      ensures Followed(old(delegate.log), Trace(expr) + old(Todo()), r)
    {
      hide Rest, Agree, Followed, Trace, TraceList, Closing, ListOf;
      ghost var log, rest := delegate.log, Todo();
      match expr {
        case Leaf(_) =>
          r := delegate.Call(On, expr);
          AfterLeaf(expr, rest);
        case Block(_, _) =>
          r := delegate.Call(BeginBlock, expr);
          AfterOpening(BlockState, expr, rest);
          if r.Ok? {
            PushExprlist(BlockState, expr);
          }
        case Loop(_, _) =>
          r := delegate.Call(BeginLoop, expr);
          AfterOpening(LoopState, expr, rest);
          if r.Ok? {
            PushExprlist(LoopState, expr);
          }
        case If(_, _, _) =>
          r := delegate.Call(BeginIf, expr);
          AfterOpening(IfTrue, expr, rest);
          if r.Ok? {
            PushExprlist(IfTrue, expr);
          }
        case Try(_, _, _) =>
          r := delegate.Call(BeginTry, expr);
          AfterOpening(TryState, expr, rest);
          if r.Ok? {
            PushExprlist(TryState, expr);
          }
      }
      Made(log, Trace(expr) + rest, r);
    }

    /** A list state is at its end: its closing callback is made and the list popped. */
    method Finish(hook: Hook, state: State, expr: Expr) returns (r: Result<()>)
      requires Valid() && Top(state, expr) && state != Default && Fits(state, expr) && AtEnd(state, expr)
      requires Closing(state, expr) == [Callback(hook, expr)]
      modifies this, delegate
      ensures Called(old(delegate.log), [Callback(hook, expr)], r)
      ensures Followed(old(delegate.log), old(Todo()), r)
    {
      hide Rest, Agree, Followed, Closing, Fits, ListOf;
      ghost var log, todo := delegate.log, Todo();
      AtListEnd(state, expr);
      r := delegate.Call(hook, expr);
      if r.Ok? {
        PopExprlist(state, expr);
      }
      Made(log, todo, r);
    }

    /** What is left to do once a list is through. */
    lemma AtListEnd(state: State, expr: Expr)
      requires Valid() && Top(state, expr) && state != Default && Fits(state, expr) && AtEnd(state, expr)
      ensures Todo() != [] && Todo()[0] == Closing(state, expr)[0]
    {
      hide Trace, Closing, Fits, ListOf;
    }

    method FinishIfTrue(expr: Expr) returns (r: Result<()>)
      requires Valid() && expr.If? && Top(IfTrue, expr) && AtEnd(IfTrue, expr)
      modifies this, delegate
      ensures Called(old(delegate.log), [Callback(AfterIfTrue, expr)], r)
      ensures Followed(old(delegate.log), old(Todo()), r)
    {
      hide Rest, Agree, Followed, TraceList;
      ghost var log, todo := delegate.log, Todo();
      AtListEnd(IfTrue, expr);
      r := delegate.Call(AfterIfTrue, expr);
      if r.Ok? {
        PopExprlist(IfTrue, expr);
        PushExprlist(IfFalse, expr);
      }
      Made(log, todo, r);
    }

    /** The callbacks at the end of a state's list: an empty catch list is over at once. */
    ghost function EndCalls(state: State, expr: Expr): (calls: seq<Callback>)
      requires state != Default && Fits(state, expr)
      reads delegate
    {
      [Callback(ClosingHook(state), expr)] +
      if state == TryState && expr.catch_ == [] && delegate.accepts(delegate.log + [Callback(OnCatch, expr)])
      then [Callback(EndTry, expr)] else []
    }

    method FinishTry(expr: Expr) returns (r: Result<()>)
      requires Valid() && expr.Try? && Top(TryState, expr) && AtEnd(TryState, expr)
      modifies this, delegate
      ensures Called(old(delegate.log), old(EndCalls(TryState, expr)), r)
      ensures Followed(old(delegate.log), old(Todo()), r)
    {
      hide Rest, Agree, Followed, TraceList;
      ghost var log, todo := delegate.log, Todo();
      AtListEnd(TryState, expr);
      r := delegate.Call(OnCatch, expr);
      if r.Ok? {
        PopExprlist(TryState, expr);
        if expr.catch_ == [] {
          r := delegate.Call(EndTry, expr);
          assert TraceList([]) == [] by { NothingToTrace(); }
          MadeTwo(log, todo, r);
          return;
        } else {
          PushExprlist(Catch, expr);
        }
      }
      Made(log, todo, r);
    }

    lemma NothingToTrace()
      ensures TraceList([]) == []
    {
    }

    lemma MadeTwo(log: seq<Callback>, todo: seq<Callback>, r: Result<()>)
      requires |todo| >= 2 && delegate.log == log + [todo[0]] + [todo[1]] && delegate.accepts(log + [todo[0]])
      requires r == if delegate.accepts(delegate.log) then Ok(()) else Error
      requires r.Ok? ==> Valid() && todo[2..] == Todo()
      ensures Followed(log, todo, r)
    {
      hide Rest, Agree;
      ghost var accepts, log1 := delegate.accepts, log + [todo[0]];
      assert todo[1..][1..] == todo[2..];
      assert Drive(accepts, log, todo) == Drive(accepts, log1, todo[1..]);
    }

    method HandleListState(state: State, expr: Expr) returns (r: Result<()>)
      requires Valid() && state != Default && Fits(state, expr) && Top(state, expr)
      modifies this, delegate
      ensures if old(AtEnd(state, expr)) then
                Followed(old(delegate.log), old(Todo()), r) && Called(old(delegate.log), old(EndCalls(state, expr)), r)
              else
                r.Ok? && delegate.log == old(delegate.log) && Valid() && Todo() == old(Todo()) &&
                Top(Default, ListOf(state, expr)[old(exprIterStack[|exprIterStack| - 1])])
    {
      hide Rest, Agree, Followed, AtEnd, ListOf;
      var found := PushNext(state, expr);
      if found {
        return Ok(());
      }
      match state {
        case BlockState => r := Finish(EndBlock, state, expr);
        case LoopState => r := Finish(EndLoop, state, expr);
        case IfTrue => r := FinishIfTrue(expr);
        case IfFalse => r := Finish(EndIf, state, expr);
        case TryState => r := FinishTry(expr);
        case Catch => r := Finish(EndTry, state, expr);
      }
    }

    lemma NothingLeft()
      requires stateStack == []
      ensures Agree([], [], []) && Rest([], [], []) == []
      ensures Valid() ==> Todo() == []
    {
    }

    lemma TopFits()
      requires Valid() && stateStack != []
      ensures |exprStack| == |stateStack|
      ensures Fits(stateStack[|stateStack| - 1], exprStack[|stateStack| - 1])
      ensures Top(stateStack[|stateStack| - 1], exprStack[|stateStack| - 1])
    {
    }

    ghost predicate AboutToVisit()
      reads this
    {
      exists e :: Top(Default, e)
    }

    /** Makes the callbacks of the plain recursive traversal, up to the first that fails. */
    method VisitExpr(root: Expr) returns (r: Result<()>)
      modifies this, delegate
      ensures (r, delegate.log) == Drive(delegate.accepts, old(delegate.log), Trace(root))
    {
      hide Rest, Trace, Agree, ListOf;
      stateStack, exprStack, exprIterStack := [], [], [];
      NothingLeft();
      PushDefault(root);
      assert Trace(root) + [] == Trace(root);
      while stateStack != []
        invariant Valid()
        invariant Drive(delegate.accepts, delegate.log, Todo()) ==
                  Drive(delegate.accepts, old(delegate.log), Trace(root))
        decreases |Todo()|, if AboutToVisit() then 0 else 1
      {
        TopFits();
        var state := stateStack[|stateStack| - 1];
        var expr := exprStack[|exprStack| - 1];
        if state == Default {
          PopDefault(expr);
          r := HandleDefaultState(expr);
        } else {
          assert !AboutToVisit();
          r := HandleListState(state, expr);
        }
        if r.Error? {
          return;
        }
      }
      NothingLeft();
      r := Ok(());
    }

    /** VisitFunc is this on the function's body. */
    method VisitExprList(exprs: seq<Expr>) returns (r: Result<()>)
      modifies this, delegate
      ensures (r, delegate.log) == Drive(delegate.accepts, old(delegate.log), TraceList(exprs))
    {
      var i := 0;
      while i < |exprs|
        invariant 0 <= i <= |exprs|
        invariant Drive(delegate.accepts, delegate.log, TraceList(exprs[i..])) ==
                  Drive(delegate.accepts, old(delegate.log), TraceList(exprs))
      {
        TraceNext(exprs, i);
        DriveAppend(delegate.accepts, delegate.log, Trace(exprs[i]), TraceList(exprs[i + 1..]));
        r := VisitExpr(exprs[i]);
        if r.Error? {
          return;
        }
        i := i + 1;
      }
      r := Ok(());
    }
  }
}
