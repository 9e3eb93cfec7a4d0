/** The walk of src/expr-visitor.cc fed to the reader of src/binary-reader-ir.cc rebuilds the body walked. */
module ExprRoundTrip {
  import opened Common
  import opened Exprs
  import opened ExprEvents
  import V = ExprVisitor
  import L = LabelStack

  /** With a delegate that never fails the walk is complete. */
  method WalkBody(es: seq<Expr>) returns (evs: seq<Event>)
    ensures evs == WalkList(es)
  {
    hide V.Drive, AsEvents, TraceList;
    var delegate := new V.Delegate(_ => true);
    var visitor := new V.ExprVisitor(delegate);
    var walked := visitor.VisitExprList(es);
    V.DriveStopsAtFirstFailure(delegate.accepts, [], TraceList(es));
    assert delegate.log == TraceList(es);
    evs := AsEvents(delegate.log);
  }

  lemma ReadBack(es: seq<Expr>)
    ensures FeedAll([Open(FuncLabel, 0, [], [])], WalkList(es)) == Ok([Open(FuncLabel, 0, [], es)])
  {
    hide FeedAll, WalkList;
    var o := Open(FuncLabel, 0, [], []);
    FeedTreeList([], o, es);
    assert [] + [o] == [o] && [] + es == es && [] + [o.WithAll(es)] == [Open(FuncLabel, 0, [], es)];
  }

  /** A lone Func label's list holds the body's trees. */
  lemma BodyTrees(reader: L.BinaryReaderIR)
    requires reader.Valid() && |reader.Constructs()| == 1
    ensures |reader.labelStack| == 1 && reader.labelStack[0].exprs < |reader.lists|
    ensures var ns := reader.lists[reader.labelStack[0].exprs];
            L.AllIn(ns, 0, |reader.lists|) && L.Trees(reader.lists, ns) == reader.Constructs()[0].exprs
  {
    hide L.Grows, L.Tree;
    L.KindsMatch(reader.lists, reader.labelStack);
  }

  method Rebuild(es: seq<Expr>) returns (r: Result<()>, reader: L.BinaryReaderIR)
    ensures r.Ok? && reader.Valid()
    ensures |reader.labelStack| == 1 && reader.labelStack[0].exprs < |reader.lists|
    ensures var ns := reader.lists[reader.labelStack[0].exprs];
            L.AllIn(ns, 0, |reader.lists|) && L.Trees(reader.lists, ns) == es
  {
    hide L.Sound, L.OpenStack, WalkList, FeedAll, L.Trees;
    var evs := WalkBody(es);
    reader := new L.BinaryReaderIR();
    reader.BeginFunctionBody();
    ReadBack(es);
    r := reader.ReadBody(evs);
    BodyTrees(reader);
  }
}
