/** The callbacks of src/expr-visitor.cc read back by hook: which delegate function is called for which expression,
    and between which others. */
module ExprReplay {
  import opened Common
  import opened Exprs

  /** An expression that has begun: whether its second list is being read, and the list it will be added to. */
  datatype Frame = Frame(expr: Expr, second: bool, outer: seq<Expr>)

  /** The expressions that have begun, innermost last, and the list being read. */
  datatype Replay = Replay(frames: seq<Frame>, exprs: seq<Expr>)

  function Begun(r: Replay, e: Expr): Replay {
    Replay(r.frames + [Frame(e, false, r.exprs)], [])
  }

  /** The innermost expression is this one, at the end of this list. */
  predicate AtEndOf(r: Replay, e: Expr, second: bool, list: seq<Expr>) {
    r.frames != [] && var top := r.frames[|r.frames| - 1]; top.expr == e && top.second == second && r.exprs == list
  }

  function Ended(r: Replay): Replay
    requires r.frames != []
  {
    var n := |r.frames| - 1;
    Replay(r.frames[..n], r.frames[n].outer + [r.frames[n].expr])
  }

  function SecondBegun(r: Replay): Replay
    requires r.frames != []
  {
    var n := |r.frames| - 1;
    Replay(r.frames[..n] + [r.frames[n].(second := true)], [])
  }

  /** One callback; Error where the hook does not fit the expression or stands in the wrong place. */
  function Heard(r: Replay, c: Callback): Result<Replay> {
    var e := c.expr;
    match c.hook
    case On => if e.Leaf? then Ok(r.(exprs := r.exprs + [e])) else Error
    case BeginBlock => if e.Block? then Ok(Begun(r, e)) else Error
    case BeginLoop => if e.Loop? then Ok(Begun(r, e)) else Error
    case BeginIf => if e.If? then Ok(Begun(r, e)) else Error
    case BeginTry => if e.Try? then Ok(Begun(r, e)) else Error
    case AfterIfTrue => if e.If? && AtEndOf(r, e, false, e.then_) then Ok(SecondBegun(r)) else Error
    case OnCatch => if e.Try? && AtEndOf(r, e, false, e.block) then Ok(SecondBegun(r)) else Error
    case EndBlock => if e.Block? && AtEndOf(r, e, false, e.exprs) then Ok(Ended(r)) else Error
    case EndLoop => if e.Loop? && AtEndOf(r, e, false, e.exprs) then Ok(Ended(r)) else Error
    case EndIf => if e.If? && AtEndOf(r, e, true, e.else_) then Ok(Ended(r)) else Error
    case EndTry => if e.Try? && AtEndOf(r, e, true, e.catch_) then Ok(Ended(r)) else Error
  }

  function HeardAll(r: Replay, cs: seq<Callback>): Result<Replay>
    decreases |cs|
  {
    if cs == [] then Ok(r) else
    match Heard(r, cs[0])
    case Ok(s) => HeardAll(s, cs[1..])
    case Error => Error
  }

  lemma {:induction false} HeardAppend(r: Replay, a: seq<Callback>, b: seq<Callback>)
    ensures HeardAll(r, a + b) == match HeardAll(r, a) { case Ok(s) => HeardAll(s, b) case Error => Error }
    decreases |a|
  {
    hide Heard;
    if a == [] {
      assert a + b == b;
    } else {
      assert (a + b)[1..] == a[1..] + b;
      match Heard(r, a[0]) {
        case Ok(s) => HeardAppend(s, a[1..], b);
        case Error =>
      }
    }
  }

  lemma HeardOne(r: Replay, c: Callback)
    ensures HeardAll(r, [c]) == Heard(r, c)
  {
    hide Heard;
    assert [c][1..] == [];
  }

  /** A begun expression's list, then the callback at its end. */
  lemma {:induction false} ListHeard(r: Replay, es: seq<Expr>, c: Callback, rest: seq<Callback>)
    requires HeardAll(r, TraceList(es)) == Ok(r.(exprs := r.exprs + es)) && Heard(r.(exprs := r.exprs + es), c).Ok?
    ensures HeardAll(r, TraceList(es) + [c] + rest) == HeardAll(Heard(r.(exprs := r.exprs + es), c).value, rest)
  {
    hide Heard, TraceList, HeardAll;
    HeardAppend(r, TraceList(es), [c] + rest);
    HeardAppend(r.(exprs := r.exprs + es), [c], rest);
    HeardOne(r.(exprs := r.exprs + es), c);
    assert TraceList(es) + [c] + rest == TraceList(es) + ([c] + rest);
  }

  lemma EndHeard(r: Replay, e: Expr, second: bool, list: seq<Expr>)
    ensures var s := Replay(r.frames + [Frame(e, second, r.exprs)], list);
            AtEndOf(s, e, second, list) && Ended(s) == r.(exprs := r.exprs + [e]) &&
            SecondBegun(s) == Replay(r.frames + [Frame(e, true, r.exprs)], [])
  {
  }

  /** The traversal of a tree is heard as that tree. */
  lemma {:induction false} TreeHeard(r: Replay, e: Expr)
    ensures HeardAll(r, Trace(e)) == Ok(r.(exprs := r.exprs + [e]))
    decreases e, 0, 1
  {
    hide HeardAll, TraceList;
    var s := Begun(r, e);
    HeardOne(r, Callback(Opening(e), e));
    match e {
      case Leaf(_) => assert Trace(e) == [Callback(On, e)];
      case Block(_, es) =>
        OneListHeard(r, e, es, Callback(BeginBlock, e), Callback(EndBlock, e));
      case Loop(_, es) =>
        OneListHeard(r, e, es, Callback(BeginLoop, e), Callback(EndLoop, e));
      case If(_, ts, fs) =>
        TwoListsHeard(r, e, ts, fs, Callback(BeginIf, e), Callback(AfterIfTrue, e), Callback(EndIf, e));
      case Try(_, bs, cs) =>
        TwoListsHeard(r, e, bs, cs, Callback(BeginTry, e), Callback(OnCatch, e), Callback(EndTry, e));
    }
  }

  lemma {:induction false} OneListHeard(r: Replay, e: Expr, es: seq<Expr>, o: Callback, c: Callback)
    requires (e.Block? && o == Callback(BeginBlock, e) && c == Callback(EndBlock, e)) ||
             (e.Loop? && o == Callback(BeginLoop, e) && c == Callback(EndLoop, e))
    requires es == e.exprs
    ensures HeardAll(r, [o] + (TraceList(es) + [c])) == Ok(r.(exprs := r.exprs + [e]))
    decreases e, 0, 0
  {
    var s := Begun(r, e);
    EndHeard(r, e, false, es);
    assert [] + es == es;
    hide HeardAll, TraceList, AtEndOf, Ended, SecondBegun;
    HeardOne(r, o);
    HeardAppend(r, [o], TraceList(es) + [c]);
    ListOfTrees(s, es);
    ListHeard(s, es, c, []);
    NothingHeard(r.(exprs := r.exprs + [e]));
    assert TraceList(es) + [c] + [] == TraceList(es) + [c];
  }

  lemma NothingHeard(r: Replay)
    ensures HeardAll(r, []) == Ok(r)
  {
  }

  /** The callbacks of an expression with two lists: o, mid and c around a and b. */
  predicate TwoLists(e: Expr, a: seq<Expr>, b: seq<Expr>, o: Callback, mid: Callback, c: Callback) {
    (e.If? && a == e.then_ && b == e.else_ && o == Callback(BeginIf, e) && mid == Callback(AfterIfTrue, e) &&
     c == Callback(EndIf, e)) ||
    (e.Try? && a == e.block && b == e.catch_ && o == Callback(BeginTry, e) && mid == Callback(OnCatch, e) &&
     c == Callback(EndTry, e))
  }

  lemma TwoListSteps(r: Replay, e: Expr, a: seq<Expr>, b: seq<Expr>, o: Callback, mid: Callback, c: Callback)
    requires TwoLists(e, a, b, o, mid, c)
    ensures var s, t := Begun(r, e), Replay(r.frames + [Frame(e, true, r.exprs)], []);
            Heard(r, o) == Ok(s) && Heard(s.(exprs := a), mid) == Ok(t) &&
            Heard(t.(exprs := b), c) == Ok(r.(exprs := r.exprs + [e]))
  {
    EndHeard(r, e, false, a);
    EndHeard(r, e, true, b);
  }

  lemma {:induction false} TwoListsHeard(r: Replay, e: Expr, a: seq<Expr>, b: seq<Expr>,
                                         o: Callback, mid: Callback, c: Callback)
    requires TwoLists(e, a, b, o, mid, c)
    ensures HeardAll(r, [o] + (TraceList(a) + [mid] + TraceList(b) + [c])) == Ok(r.(exprs := r.exprs + [e]))
    decreases e, 0, 0
  {
    var s, t := Begun(r, e), Replay(r.frames + [Frame(e, true, r.exprs)], []);
    TwoListSteps(r, e, a, b, o, mid, c);
    assert [] + a == a && [] + b == b;
    ListOfTrees(s, a);
    ListOfTrees(t, b);
    hide *;
    HeardOne(r, o);
    HeardAppend(r, [o], TraceList(a) + [mid] + TraceList(b) + [c]);
    ListHeard(s, a, mid, TraceList(b) + [c]);
    ListHeard(t, b, c, []);
    NothingHeard(r.(exprs := r.exprs + [e]));
    assert TraceList(a) + [mid] + TraceList(b) + [c] == TraceList(a) + [mid] + (TraceList(b) + [c]);
    assert TraceList(b) + [c] + [] == TraceList(b) + [c];
  }

  lemma {:induction false} ListOfTrees(r: Replay, es: seq<Expr>)
    ensures HeardAll(r, TraceList(es)) == Ok(r.(exprs := r.exprs + es))
    decreases es, 2
  {
    hide Trace, Heard;
    if es == [] {
      assert r.exprs + [] == r.exprs;
    } else {
      TreeHeard(r, es[0]);
      ListOfTrees(r.(exprs := r.exprs + [es[0]]), es[1..]);
      HeardAppend(r, Trace(es[0]), TraceList(es[1..]));
      assert r.exprs + [es[0]] + es[1..] == r.exprs + es;
    }
  }

  // ---------------------------------------------------------------- nothing else is heard

  /** The callbacks that led to a frame's list. */
  function Lead(f: Frame): seq<Callback> {
    TraceList(f.outer) +
    match f.expr
    case If(_, ts, _) =>
      [Callback(BeginIf, f.expr)] + if f.second then TraceList(ts) + [Callback(AfterIfTrue, f.expr)] else []
    case Try(_, bs, _) =>
      [Callback(BeginTry, f.expr)] + if f.second then TraceList(bs) + [Callback(OnCatch, f.expr)] else []
    case Block(_, _) => [Callback(BeginBlock, f.expr)]
    case Loop(_, _) => [Callback(BeginLoop, f.expr)]
    case Leaf(_) => []
  }

  function Leads(fs: seq<Frame>): seq<Callback> {
    if fs == [] then [] else Leads(fs[..|fs| - 1]) + Lead(fs[|fs| - 1])
  }

  /** All the callbacks heard. */
  function Said(r: Replay): seq<Callback> {
    Leads(r.frames) + TraceList(r.exprs)
  }

  lemma {:induction false} TraceAppend(a: seq<Expr>, e: Expr)
    ensures TraceList(a + [e]) == TraceList(a) + Trace(e)
    decreases |a|
  {
    hide Trace;
    if a == [] {
      assert a + [e] == [e] && [e][1..] == [];
    } else {
      TraceAppend(a[1..], e);
      assert (a + [e])[1..] == a[1..] + [e];
    }
  }

  lemma LeadsLast(fs: seq<Frame>, f: Frame)
    ensures Leads(fs + [f]) == Leads(fs) + Lead(f)
  {
    hide Lead;
    assert (fs + [f])[..|fs|] == fs;
  }

  lemma SaidNothing()
    ensures TraceList([]) == [] && Leads([]) == []
  {
  }

  lemma SaidLeaf(r: Replay, e: Expr)
    requires e.Leaf?
    ensures Said(r.(exprs := r.exprs + [e])) == Said(r) + [Callback(On, e)]
  {
    TraceAppend(r.exprs, e);
    hide TraceList, Leads;
  }

  lemma SaidBegin(r: Replay, e: Expr, hook: Hook)
    requires !e.Leaf? && Heard(r, Callback(hook, e)) == Ok(Begun(r, e)) &&
             hook in {BeginBlock, BeginLoop, BeginIf, BeginTry}
    ensures Said(Begun(r, e)) == Said(r) + [Callback(hook, e)]
  {
    hide TraceList, Leads;
    SaidNothing();
    LeadsLast(r.frames, Frame(e, false, r.exprs));
  }

  lemma TopFrame(r: Replay)
    requires r.frames != []
    ensures var n := |r.frames| - 1; Leads(r.frames) == Leads(r.frames[..n]) + Lead(r.frames[n])
  {
  }

  lemma SaidSecond(r: Replay, e: Expr, hook: Hook)
    requires (e.If? && hook == AfterIfTrue && AtEndOf(r, e, false, e.then_)) ||
             (e.Try? && hook == OnCatch && AtEndOf(r, e, false, e.block))
    ensures Said(SecondBegun(r)) == Said(r) + [Callback(hook, e)]
  {
    hide TraceList, Leads;
    SaidNothing();
    TopFrame(r);
    var n := |r.frames| - 1;
    LeadsLast(r.frames[..n], r.frames[n].(second := true));
  }

  lemma SaidEnd(r: Replay, e: Expr, hook: Hook)
    requires !e.Leaf? && hook in {EndBlock, EndLoop, EndIf, EndTry} && r.frames != []
    requires Heard(r, Callback(hook, e)) == Ok(Ended(r))
    ensures Said(Ended(r)) == Said(r) + [Callback(hook, e)]
  {
    hide TraceList, Leads;
    TopFrame(r);
    var n := |r.frames| - 1;
    TraceAppend(r.frames[n].outer, e);
  }

  lemma SaidMore(r: Replay, c: Callback)
    requires Heard(r, c).Ok?
    ensures Said(Heard(r, c).value) == Said(r) + [c]
  {
    var e := c.expr;
    hide Said, Begun, Ended, SecondBegun;
    match c.hook {
      case On => SaidLeaf(r, e);
      case BeginBlock | BeginLoop | BeginIf | BeginTry => SaidBegin(r, e, c.hook);
      case AfterIfTrue | OnCatch => SaidSecond(r, e, c.hook);
      case EndBlock | EndLoop | EndIf | EndTry => SaidEnd(r, e, c.hook);
    }
  }

  lemma {:induction false} SaidAll(r: Replay, cs: seq<Callback>)
    requires HeardAll(r, cs).Ok?
    ensures Said(HeardAll(r, cs).value) == Said(r) + cs
    decreases |cs|
  {
    hide Heard, Said;
    if cs != [] {
      SaidMore(r, cs[0]);
      SaidAll(Heard(r, cs[0]).value, cs[1..]);
    }
  }

  /** A sequence of callbacks is heard as a list of trees exactly when it is that list's traversal. */
  lemma HeardExactly(cs: seq<Callback>, es: seq<Expr>)
    ensures HeardAll(Replay([], []), cs) == Ok(Replay([], es)) <==> cs == TraceList(es)
  {
    hide HeardAll, Heard, TraceList;
    ListOfTrees(Replay([], []), es);
    assert [] + es == es;
    SaidNothing();
    if HeardAll(Replay([], []), cs) == Ok(Replay([], es)) {
      SaidAll(Replay([], []), cs);
      assert Said(Replay([], es)) == [] + TraceList(es) == TraceList(es);
      assert Said(Replay([], [])) == [] && [] + cs == cs;
    }
  }
}
