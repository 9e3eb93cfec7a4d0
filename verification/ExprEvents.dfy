/**
 * The flat events a function body is read as (src/binary-reader-ir.cc) and the stack of half-built
 * constructs they stand for. Builder and walker are inverse on this stack; LabelStack.dfy shows
 * that the reader's label stack over shared lists refines it.
 */
module ExprEvents {
  import opened Common
  import opened Exprs

  datatype Event =
    | LeafEvent(op: int) | BlockEvent(sig: int) | LoopEvent(sig: int) | IfEvent(sig: int) | TryEvent(sig: int)
    | ElseEvent | CatchEvent | EndEvent

  datatype LabelType = FuncLabel | BlockLabel | LoopLabel | IfLabel | ElseLabel | TryLabel | CatchLabel

  /** A construct being read: its finished first arm, when a second is being read, and the list being read. */
  datatype Open = Open(kind: LabelType, sig: int, first: seq<Expr>, exprs: seq<Expr>) {
    function With(e: Expr): Open {
      this.(exprs := exprs + [e])
    }

    function WithAll(es: seq<Expr>): Open {
      this.(exprs := exprs + es)
    }

    /** The expression the construct becomes at its end. */
    function Shut(): Expr
      requires kind != FuncLabel
    {
      match kind
      case BlockLabel => Block(sig, exprs)
      case LoopLabel => Loop(sig, exprs)
      case IfLabel => If(sig, exprs, [])
      case ElseLabel => If(sig, first, exprs)
      case TryLabel => Try(sig, exprs, [])
      case CatchLabel => Try(sig, first, exprs)
    }
  }

  /** What a begin event opens. */
  function Begun(ev: Event): Open
    requires ev.BlockEvent? || ev.LoopEvent? || ev.IfEvent? || ev.TryEvent?
  {
    match ev
    case BlockEvent(sig) => Open(BlockLabel, sig, [], [])
    case LoopEvent(sig) => Open(LoopLabel, sig, [], [])
    case IfEvent(sig) => Open(IfLabel, sig, [], [])
    case TryEvent(sig) => Open(TryLabel, sig, [], [])
  }

  /** What one event does to the open constructs, the top one last. */
  function Feed(stack: seq<Open>, ev: Event): Result<seq<Open>> {
    var n := |stack|;
    match ev
    case LeafEvent(op) =>
      if n == 0 then Error else Ok(stack[..n - 1] + [stack[n - 1].With(Leaf(op))])
    case ElseEvent =>
      if n < 2 || stack[n - 1].kind != IfLabel then Error
      else Ok(stack[..n - 1] + [Open(ElseLabel, stack[n - 1].sig, stack[n - 1].exprs, [])])
    case CatchEvent =>
      if n < 2 || stack[n - 1].kind != TryLabel then Error
      else Ok(stack[..n - 1] + [Open(CatchLabel, stack[n - 1].sig, stack[n - 1].exprs, [])])
    case EndEvent =>
      if n < 2 || stack[n - 1].kind == FuncLabel then Error
      else Ok(stack[..n - 2] + [stack[n - 2].With(stack[n - 1].Shut())])
    case _ =>
      if n == 0 then Error else Ok(stack + [Begun(ev)])
  }

  function FeedAll(stack: seq<Open>, evs: seq<Event>): Result<seq<Open>>
    decreases |evs|
  {
    if evs == [] then Ok(stack) else
    match Feed(stack, evs[0])
    case Ok(s) => FeedAll(s, evs[1..])
    case Error => Error
  }

  lemma {:induction false} FeedAppend(stack: seq<Open>, a: seq<Event>, b: seq<Event>)
    ensures FeedAll(stack, a + b) ==
            match FeedAll(stack, a) { case Ok(s) => FeedAll(s, b) case Error => Error }
    decreases |a|
  {
    if a == [] {
      assert a + b == b;
    } else {
      assert (a + b)[1..] == a[1..] + b;
      match Feed(stack, a[0]) {
        case Ok(s) => FeedAppend(s, a[1..], b);
        case Error =>
      }
    }
  }

  /** The event that begins an expression. */
  function Beginning(e: Expr): Event {
    match e
    case Leaf(op) => LeafEvent(op)
    case Block(sig, _) => BlockEvent(sig)
    case Loop(sig, _) => LoopEvent(sig)
    case If(sig, _, _) => IfEvent(sig)
    case Try(sig, _, _) => TryEvent(sig)
  }

  /** A callback of the walk as an event of the reader: AfterIfTrue is else, OnCatch is catch, every End is end. */
  function AsEvent(c: Callback): Event {
    match c.hook
    case AfterIfTrue => ElseEvent
    case OnCatch => CatchEvent
    case EndBlock | EndLoop | EndIf | EndTry => EndEvent
    case _ => Beginning(c.expr)
  }

  function AsEvents(cs: seq<Callback>): (evs: seq<Event>)
    ensures |evs| == |cs|
  {
    seq(|cs|, i requires 0 <= i < |cs| => AsEvent(cs[i]))
  }

  /** The events of a tree's walk. */
  function Walk(e: Expr): seq<Event> {
    AsEvents(Trace(e))
  }

  function WalkList(es: seq<Expr>): seq<Event> {
    AsEvents(TraceList(es))
  }

  lemma WalkNothing()
    ensures WalkList([]) == []
  {
  }

  lemma WalkNext(es: seq<Expr>)
    requires es != []
    ensures WalkList(es) == Walk(es[0]) + WalkList(es[1..])
  {
    hide Trace;
  }

  lemma {:induction false} WalkAppend(a: seq<Expr>, b: seq<Expr>)
    ensures WalkList(a + b) == WalkList(a) + WalkList(b)
    decreases |a|
  {
    hide WalkList, Walk;
    if a == [] {
      WalkNothing();
      assert a + b == b;
    } else {
      WalkNext(a);
      WalkNext(a + b);
      assert (a + b)[1..] == a[1..] + b && (a + b)[0] == a[0];
      WalkAppend(a[1..], b);
    }
  }

  lemma WalkShape(e: Expr)
    ensures Walk(e) == [Beginning(e)] +
                       match e {
                         case Leaf(_) => []
                         case Block(_, es) => WalkList(es) + [EndEvent]
                         case Loop(_, es) => WalkList(es) + [EndEvent]
                         case If(_, ts, fs) => WalkList(ts) + [ElseEvent] + WalkList(fs) + [EndEvent]
                         case Try(_, bs, cs) => WalkList(bs) + [CatchEvent] + WalkList(cs) + [EndEvent]
                       }
  {
    hide TraceList;
  }

  lemma FeedFirst(stack: seq<Open>, ev: Event, rest: seq<Event>)
    requires Feed(stack, ev).Ok?
    ensures FeedAll(stack, [ev] + rest) == FeedAll(Feed(stack, ev).value, rest)
  {
    assert ([ev] + rest)[1..] == rest;
  }

  lemma FeedBegin(stack: seq<Open>, e: Expr)
    requires stack != [] && !e.Leaf?
    ensures Feed(stack, Beginning(e)) == Ok(stack + [Begun(Beginning(e))])
  {
  }

  lemma FeedSecondArm(stack: seq<Open>, o: Open)
    requires stack != []
    ensures o.kind == IfLabel ==> Feed(stack + [o], ElseEvent) == Ok(stack + [Open(ElseLabel, o.sig, o.exprs, [])])
    ensures o.kind == TryLabel ==> Feed(stack + [o], CatchEvent) == Ok(stack + [Open(CatchLabel, o.sig, o.exprs, [])])
  {
  }

  lemma FeedEnd(stack: seq<Open>, o: Open, p: Open)
    requires p.kind != FuncLabel
    ensures Feed(stack + [o] + [p], EndEvent) == Ok(stack + [o.With(p.Shut())])
  {
    var s := stack + [o] + [p];
    assert s[..|s| - 2] == stack;
  }

  /** Reading a list and then the event after it. */
  lemma FeedListThen(stack: seq<Open>, o: Open, es: seq<Expr>, rest: seq<Event>)
    requires FeedAll(stack + [o], WalkList(es)) == Ok(stack + [o.WithAll(es)])
    ensures FeedAll(stack + [o], WalkList(es) + rest) == FeedAll(stack + [o.WithAll(es)], rest)
  {
    FeedAppend(stack + [o], WalkList(es), rest);
  }

  /** Reading the walk of a tree appends that tree to the open list and leaves the stack as deep as it was. */
  lemma {:induction false} FeedTree(stack: seq<Open>, o: Open, e: Expr)
    ensures FeedAll(stack + [o], Walk(e)) == Ok(stack + [o.With(e)])
    decreases e, 0, 2
  {
    hide Walk, WalkList, Feed, FeedAll;
    WalkShape(e);
    match e {
      case Leaf(op) =>
        FeedLeaf(stack, o, op);
        assert [LeafEvent(op)] + [] == [LeafEvent(op)];
      case Block(sig, es) =>
        FeedOneArm(stack, o, e, es);
      case Loop(sig, es) =>
        FeedOneArm(stack, o, e, es);
      case If(sig, ts, fs) =>
        FeedTwoArms(stack, o, e, ts, ElseEvent, ElseLabel, fs);
      case Try(sig, bs, cs) =>
        FeedTwoArms(stack, o, e, bs, CatchEvent, CatchLabel, cs);
    }
  }

  lemma FeedLeaf(stack: seq<Open>, o: Open, op: int)
    ensures FeedAll(stack + [o], [LeafEvent(op)]) == Ok(stack + [o.With(Leaf(op))])
  {
    assert Feed(stack + [o], LeafEvent(op)) == Ok(stack + [o.With(Leaf(op))]);
    FeedFirst(stack + [o], LeafEvent(op), []);
    assert [LeafEvent(op)] + [] == [LeafEvent(op)];
  }

  lemma FeedLast(stack: seq<Open>, o: Open, p: Open)
    requires p.kind != FuncLabel
    ensures FeedAll(stack + [o] + [p], [EndEvent]) == Ok(stack + [o.With(p.Shut())])
  {
    hide Feed;
    FeedEnd(stack, o, p);
    FeedFirst(stack + [o] + [p], EndEvent, []);
    assert [EndEvent] + [] == [EndEvent];
  }

  lemma {:induction false} FeedOneArm(stack: seq<Open>, o: Open, e: Expr, es: seq<Expr>)
    requires (e.Block? || e.Loop?) && es == e.exprs
    ensures FeedAll(stack + [o], [Beginning(e)] + (WalkList(es) + [EndEvent])) == Ok(stack + [o.With(e)])
    decreases e, 0, 1
  {
    hide Walk, WalkList, Feed, FeedAll;
    var p := Begun(Beginning(e));
    FeedBegin(stack + [o], e);
    FeedFirst(stack + [o], Beginning(e), WalkList(es) + [EndEvent]);
    FeedTreeList(stack + [o], p, es);
    FeedListThen(stack + [o], p, es, [EndEvent]);
    assert [] + es == es;
    FeedLast(stack, o, p.WithAll(es));
  }

  lemma {:induction false} FeedTwoArms(stack: seq<Open>, o: Open, e: Expr,
                                       a: seq<Expr>, ev: Event, kind: LabelType, b: seq<Expr>)
    requires (e.If? && a == e.then_ && ev == ElseEvent && kind == ElseLabel && b == e.else_) ||
             (e.Try? && a == e.block && ev == CatchEvent && kind == CatchLabel && b == e.catch_)
    ensures FeedAll(stack + [o], [Beginning(e)] + (WalkList(a) + [ev] + WalkList(b) + [EndEvent])) ==
            Ok(stack + [o.With(e)])
    decreases e, 0, 1
  {
    hide Walk, WalkList, Feed, FeedAll;
    var p := Begun(Beginning(e));
    var q := Open(kind, p.sig, a, []);
    assert WalkList(a) + [ev] + WalkList(b) + [EndEvent] == WalkList(a) + ([ev] + (WalkList(b) + [EndEvent]));
    FeedBegin(stack + [o], e);
    FeedFirst(stack + [o], Beginning(e), WalkList(a) + ([ev] + (WalkList(b) + [EndEvent])));
    FeedTreeList(stack + [o], p, a);
    FeedListThen(stack + [o], p, a, [ev] + (WalkList(b) + [EndEvent]));
    assert [] + a == a && [] + b == b;
    FeedSecondArm(stack + [o], p.WithAll(a));
    FeedFirst(stack + [o] + [p.WithAll(a)], ev, WalkList(b) + [EndEvent]);
    FeedTreeList(stack + [o], q, b);
    FeedListThen(stack + [o], q, b, [EndEvent]);
    FeedLast(stack, o, q.WithAll(b));
  }

  lemma {:induction false} FeedTreeList(stack: seq<Open>, o: Open, es: seq<Expr>)
    ensures FeedAll(stack + [o], WalkList(es)) == Ok(stack + [o.WithAll(es)])
    decreases es, 1
  {
    hide Walk, WalkList, Feed;
    if es == [] {
      WalkNothing();
      assert o.exprs + [] == o.exprs;
    } else {
      WalkNext(es);
      FeedAppend(stack + [o], Walk(es[0]), WalkList(es[1..]));
      FeedTree(stack, o, es[0]);
      FeedTreeList(stack, o.With(es[0]), es[1..]);
      assert o.exprs + [es[0]] + es[1..] == o.exprs + es;
    }
  }

  /** Which events are read as which expression: the kinds and the signature are those of the events. */
  lemma ReadAs(stack: seq<Open>, o: Open, op: int, sig: int, a: seq<Expr>, b: seq<Expr>)
    ensures var s := stack + [o];
            FeedAll(s, [LeafEvent(op)]) == Ok(stack + [o.With(Leaf(op))]) &&
            FeedAll(s, [BlockEvent(sig)] + WalkList(a) + [EndEvent]) == Ok(stack + [o.With(Block(sig, a))]) &&
            FeedAll(s, [LoopEvent(sig)] + WalkList(a) + [EndEvent]) == Ok(stack + [o.With(Loop(sig, a))]) &&
            FeedAll(s, [IfEvent(sig)] + WalkList(a) + [ElseEvent] + WalkList(b) + [EndEvent]) ==
            Ok(stack + [o.With(If(sig, a, b))]) &&
            FeedAll(s, [TryEvent(sig)] + WalkList(a) + [CatchEvent] + WalkList(b) + [EndEvent]) ==
            Ok(stack + [o.With(Try(sig, a, b))])
  {
    hide Walk, WalkList, FeedAll, Feed;
    WalksAs(op, sig, a, b);
    FeedTree(stack, o, Leaf(op));
    FeedTree(stack, o, Block(sig, a));
    FeedTree(stack, o, Loop(sig, a));
    FeedTree(stack, o, If(sig, a, b));
    FeedTree(stack, o, Try(sig, a, b));
  }

  /** Which events the walk of an expression is. */
  lemma WalksAs(op: int, sig: int, a: seq<Expr>, b: seq<Expr>)
    ensures Walk(Leaf(op)) == [LeafEvent(op)]
    ensures Walk(Block(sig, a)) == [BlockEvent(sig)] + WalkList(a) + [EndEvent]
    ensures Walk(Loop(sig, a)) == [LoopEvent(sig)] + WalkList(a) + [EndEvent]
    ensures Walk(If(sig, a, b)) == [IfEvent(sig)] + WalkList(a) + [ElseEvent] + WalkList(b) + [EndEvent]
    ensures Walk(Try(sig, a, b)) == [TryEvent(sig)] + WalkList(a) + [CatchEvent] + WalkList(b) + [EndEvent]
  {
    hide Walk, WalkList;
    WalkShape(Leaf(op));
    WalkShape(Block(sig, a));
    WalkShape(Loop(sig, a));
    WalkShape(If(sig, a, b));
    WalkShape(Try(sig, a, b));
  }

  /** An end may stand for an empty second arm and the end. */
  lemma ReadWithoutSecond(stack: seq<Open>, o: Open, sig: int, a: seq<Expr>)
    ensures FeedAll(stack + [o], [IfEvent(sig)] + WalkList(a) + [EndEvent]) == Ok(stack + [o.With(If(sig, a, []))])
    ensures FeedAll(stack + [o], [TryEvent(sig)] + WalkList(a) + [EndEvent]) == Ok(stack + [o.With(Try(sig, a, []))])
  {
    ReadOneArm(stack, o, If(sig, a, []), Open(IfLabel, sig, [], []), a);
    ReadOneArm(stack, o, Try(sig, a, []), Open(TryLabel, sig, [], []), a);
  }

  lemma ReadOneArm(stack: seq<Open>, o: Open, e: Expr, p: Open, a: seq<Expr>)
    requires !e.Leaf? && p == Begun(Beginning(e)) && p.WithAll(a).Shut() == e
    ensures FeedAll(stack + [o], [Beginning(e)] + WalkList(a) + [EndEvent]) == Ok(stack + [o.With(e)])
  {
    hide WalkList, Feed, FeedAll;
    FeedBegin(stack + [o], e);
    FeedFirst(stack + [o], Beginning(e), WalkList(a) + [EndEvent]);
    FeedTreeList(stack + [o], p, a);
    FeedListThen(stack + [o], p, a, [EndEvent]);
    FeedLast(stack, o, p.WithAll(a));
    assert [Beginning(e)] + WalkList(a) + [EndEvent] == [Beginning(e)] + (WalkList(a) + [EndEvent]);
  }

  /** Different trees have different walks. */
  lemma WalkInjective(a: seq<Expr>, b: seq<Expr>)
    requires WalkList(a) == WalkList(b)
    ensures a == b
  {
    hide WalkList, FeedAll;
    var o := Open(FuncLabel, 0, [], []);
    FeedTreeList([], o, a);
    FeedTreeList([], o, b);
    assert ([] + [o.WithAll(a)])[0].exprs == a && ([] + [o.WithAll(b)])[0].exprs == b;
  }

  /** The walk of what a stack of open constructs holds, up to where each is open. */
  function Flat(stack: seq<Open>): seq<Event>
    decreases |stack|
  {
    if stack == [] then [] else
    var o := stack[|stack| - 1];
    Flat(stack[..|stack| - 1]) + Lead(o) + WalkList(o.exprs)
  }

  /** The events of a construct before the list being read. */
  function Lead(o: Open): seq<Event> {
    match o.kind
    case FuncLabel => []
    case BlockLabel => [BlockEvent(o.sig)]
    case LoopLabel => [LoopEvent(o.sig)]
    case IfLabel => [IfEvent(o.sig)]
    case ElseLabel => [IfEvent(o.sig)] + WalkList(o.first) + [ElseEvent]
    case TryLabel => [TryEvent(o.sig)]
    case CatchLabel => [TryEvent(o.sig)] + WalkList(o.first) + [CatchEvent]
  }

  /** An end that leaves out the second arm stands for the empty arm and the end. */
  function Spelled(stack: seq<Open>, ev: Event): seq<Event> {
    if ev != EndEvent || stack == [] then [ev]
    else if stack[|stack| - 1].kind == IfLabel then [ElseEvent, EndEvent]
    else if stack[|stack| - 1].kind == TryLabel then [CatchEvent, EndEvent]
    else [ev]
  }

  function SpelledAll(stack: seq<Open>, evs: seq<Event>): seq<Event>
    decreases |evs|
  {
    if evs == [] then [] else
    match Feed(stack, evs[0])
    case Ok(s) => Spelled(stack, evs[0]) + SpelledAll(s, evs[1..])
    case Error => []
  }

  lemma FlatTop(stack: seq<Open>, o: Open)
    ensures Flat(stack + [o]) == Flat(stack) + Lead(o) + WalkList(o.exprs)
  {
    hide Lead, WalkList;
    assert (stack + [o])[..|stack|] == stack;
  }

  /** Adding an expression to the top list adds its walk. */
  lemma FlatWith(stack: seq<Open>, o: Open, e: Expr)
    ensures Flat(stack + [o.With(e)]) == Flat(stack + [o]) + Walk(e)
  {
    hide Flat, WalkList, Walk;
    FlatTop(stack, o);
    FlatTop(stack, o.With(e));
    assert Lead(o) == Lead(o.With(e));
    hide Lead;
    WalkAppend(o.exprs, [e]);
    WalkNext([e]);
    WalkNothing();
    assert [e][1..] == [];
    var a, b := Flat(stack) + Lead(o), WalkList(o.exprs);
    assert a + (b + Walk(e)) == (a + b) + Walk(e);
  }

  lemma WalkOfShut(o: Open)
    requires o.kind != FuncLabel
    ensures Walk(o.Shut()) == Lead(o) + WalkList(o.exprs) + Spelled([o], EndEvent)
  {
    hide WalkList, Walk;
    WalkShape(o.Shut());
    WalkNothing();
  }

  /** One accepted event adds itself, spelled out, to what is held. */
  lemma FlatFeed(stack: seq<Open>, ev: Event)
    requires Feed(stack, ev).Ok?
    ensures Flat(Feed(stack, ev).value) == Flat(stack) + Spelled(stack, ev)
  {
    hide Flat, WalkList, Walk;
    var n := |stack|;
    var o := stack[n - 1];
    var below := stack[..n - 1];
    assert stack == below + [o];
    WalkNothing();
    match ev {
      case LeafEvent(op) =>
        FlatWith(below, o, Leaf(op));
        WalkShape(Leaf(op));
      case ElseEvent =>
        FlatSecondArm(below, o, ElseLabel, ElseEvent);
      case CatchEvent =>
        FlatSecondArm(below, o, CatchLabel, CatchEvent);
      case EndEvent =>
        FlatEnd(stack[..n - 2], stack[n - 2], o);
        assert stack[..n - 2] + [stack[n - 2]] == below;
      case _ =>
        FlatTop(stack, Begun(ev));
    }
  }

  lemma FlatSecondArm(stack: seq<Open>, o: Open, kind: LabelType, ev: Event)
    requires (o.kind == IfLabel && kind == ElseLabel && ev == ElseEvent) ||
             (o.kind == TryLabel && kind == CatchLabel && ev == CatchEvent)
    ensures Flat(stack + [Open(kind, o.sig, o.exprs, [])]) == Flat(stack + [o]) + [ev]
  {
    hide Flat, WalkList;
    var q := Open(kind, o.sig, o.exprs, []);
    FlatTop(stack, o);
    FlatTop(stack, q);
    WalkNothing();
    assert Lead(q) == Lead(o) + WalkList(o.exprs) + [ev];
  }

  lemma FlatEnd(stack: seq<Open>, o: Open, p: Open)
    requires p.kind != FuncLabel
    ensures Flat(stack + [o.With(p.Shut())]) == Flat(stack + [o] + [p]) + Spelled([p], EndEvent)
  {
    hide Flat, WalkList, Walk, Lead;
    FlatWith(stack, o, p.Shut());
    WalkOfShut(p);
    FlatTop(stack + [o], p);
    var a, b, c, d := Flat(stack + [o]), Lead(p), WalkList(p.exprs), Spelled([p], EndEvent);
    assert a + (b + c + d) == a + b + c + d;
  }

  lemma {:induction false} FlatFeedAll(stack: seq<Open>, evs: seq<Event>)
    requires FeedAll(stack, evs).Ok?
    ensures Flat(FeedAll(stack, evs).value) == Flat(stack) + SpelledAll(stack, evs)
    decreases |evs|
  {
    hide Flat, Feed, Spelled;
    if evs != [] {
      FlatFeed(stack, evs[0]);
      FlatFeedAll(Feed(stack, evs[0]).value, evs[1..]);
    }
  }

  /** Walking what an accepted body was read into gives back its events, every second arm spelled out. */
  lemma WalkOfRead(evs: seq<Event>, es: seq<Expr>)
    requires FeedAll([Open(FuncLabel, 0, [], [])], evs) == Ok([Open(FuncLabel, 0, [], es)])
    ensures WalkList(es) == SpelledAll([Open(FuncLabel, 0, [], [])], evs)
  {
    hide Flat, WalkList, FeedAll, SpelledAll;
    var o, p := Open(FuncLabel, 0, [], []), Open(FuncLabel, 0, [], es);
    FlatFeedAll([o], evs);
    assert [] + [o] == [o] && [] + [p] == [p];
    FlatTop([], o);
    FlatTop([], p);
    WalkNothing();
    FlatNothing();
    assert Flat([p]) == WalkList(es) && Flat([o]) == [];
    assert [] + SpelledAll([o], evs) == SpelledAll([o], evs);
  }

  lemma FlatNothing()
    ensures Flat([]) == []
  {
  }
}
