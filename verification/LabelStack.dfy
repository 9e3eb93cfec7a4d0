/**
 * The label stack of src/binary-reader-ir.cc. A label points at the expression list being filled,
 * which another expression owns: here the lists live in one arena and a pointer is an index into it.
 * The arena and the label stack refine the stack of open constructs of ExprEvents.dfy.
 */
module LabelStack {
  import opened Common
  import opened Exprs
  import opened ExprEvents

  /** An expression in memory: its lists are named by their place in the arena. */
  datatype Node =
    | LeafNode(op: int)
    | BlockNode(sig: int, exprs: nat)
    | LoopNode(sig: int, exprs: nat)
    | IfNode(sig: int, then_: nat, else_: nat)
    | TryNode(sig: int, block: nat, catch_: nat)

  type Lists = seq<seq<Node>>

  datatype LabelNode = LabelNode(kind: LabelType, exprs: nat)

  ghost predicate KidsIn(n: Node, lo: int, hi: int) {
    match n
    case LeafNode(_) => true
    case BlockNode(_, k) => lo <= k < hi
    case LoopNode(_, k) => lo <= k < hi
    case IfNode(_, t, f) => lo <= t < f < hi
    case TryNode(_, b, c) => lo <= b < c < hi
  }

  ghost predicate AllIn(ns: seq<Node>, lo: int, hi: int) {
    forall j :: 0 <= j < |ns| ==> KidsIn(ns[j], lo, hi)
  }

  /** What lists lo to hi own lies after them and before hi. */
  ghost predicate Sealed(lists: Lists, lo: nat, hi: nat) {
    hi <= |lists| && forall i :: lo <= i < hi ==> AllIn(lists[i], i + 1, hi)
  }

  /** Every list owned by an expression was made after the list the expression is in. */
  ghost predicate Grows(lists: Lists) {
    Sealed(lists, 0, |lists|)
  }

  ghost function FirstKid(n: Node, none: nat): nat {
    match n
    case LeafNode(_) => none
    case BlockNode(_, k) => k
    case LoopNode(_, k) => k
    case IfNode(_, t, _) => t
    case TryNode(_, b, _) => b
  }

  /** The tree an expression in memory is. */
  ghost function Tree(lists: Lists, n: Node): Expr
    requires Grows(lists) && KidsIn(n, 0, |lists|)
    decreases |lists| - FirstKid(n, |lists|)
  {
    match n
    case LeafNode(op) => Leaf(op)
    case BlockNode(sig, k) =>
      Block(sig, seq(|lists[k]|, i requires 0 <= i < |lists[k]| => Tree(lists, lists[k][i])))
    case LoopNode(sig, k) =>
      Loop(sig, seq(|lists[k]|, i requires 0 <= i < |lists[k]| => Tree(lists, lists[k][i])))
    case IfNode(sig, t, f) =>
      If(sig, seq(|lists[t]|, i requires 0 <= i < |lists[t]| => Tree(lists, lists[t][i])),
              seq(|lists[f]|, i requires 0 <= i < |lists[f]| => Tree(lists, lists[f][i])))
    case TryNode(sig, b, c) =>
      Try(sig, seq(|lists[b]|, i requires 0 <= i < |lists[b]| => Tree(lists, lists[b][i])),
               seq(|lists[c]|, i requires 0 <= i < |lists[c]| => Tree(lists, lists[c][i])))
  }

  ghost function Trees(lists: Lists, ns: seq<Node>): (es: seq<Expr>)
    requires Grows(lists) && AllIn(ns, 0, |lists|)
    ensures |es| == |ns| && forall i :: 0 <= i < |ns| ==> es[i] == Tree(lists, ns[i])
  {
    seq(|ns|, i requires 0 <= i < |ns| => Tree(lists, ns[i]))
  }

  lemma AllInWider(ns: seq<Node>, lo: int, hi: int, lo': int, hi': int)
    requires AllIn(ns, lo, hi) && lo' <= lo && hi <= hi'
    ensures AllIn(ns, lo', hi')
  {
  }

  /** A tree is made of the trees of its lists. */
  lemma TreeOfArms(lists: Lists, n: Node)
    requires Grows(lists) && KidsIn(n, 0, |lists|)
    ensures forall k :: 0 <= k < |lists| ==> AllIn(lists[k], 0, |lists|)
    ensures match n
            case LeafNode(op) => Tree(lists, n) == Leaf(op)
            case BlockNode(sig, k) => Tree(lists, n) == Block(sig, Trees(lists, lists[k]))
            case LoopNode(sig, k) => Tree(lists, n) == Loop(sig, Trees(lists, lists[k]))
            case IfNode(sig, t, f) => Tree(lists, n) == If(sig, Trees(lists, lists[t]), Trees(lists, lists[f]))
            case TryNode(sig, b, c) => Tree(lists, n) == Try(sig, Trees(lists, lists[b]), Trees(lists, lists[c]))
  {
    forall k | 0 <= k < |lists| ensures AllIn(lists[k], 0, |lists|) {
      AllInWider(lists[k], k + 1, |lists|, 0, |lists|);
    }
  }

  /** A tree depends only on the lists below it. */
  lemma {:induction false} TreeSame(lists: Lists, lists': Lists, n: Node, lo: nat, hi: nat)
    requires Grows(lists) && Grows(lists') && hi <= |lists| && hi <= |lists'|
    requires KidsIn(n, lo, hi) && Sealed(lists, lo, hi)
    requires forall i :: lo <= i < hi ==> lists[i] == lists'[i]
    ensures Tree(lists, n) == Tree(lists', n)
    decreases hi - FirstKid(n, hi), 1
  {
    hide Tree, Grows, Sealed;
    TreeOfArms(lists, n);
    TreeOfArms(lists', n);
    match n {
      case LeafNode(_) =>
      case BlockNode(_, k) => TreesSame(lists, lists', k, lo, hi);
      case LoopNode(_, k) => TreesSame(lists, lists', k, lo, hi);
      case IfNode(_, t, f) => TreesSame(lists, lists', t, lo, hi); TreesSame(lists, lists', f, lo, hi);
      case TryNode(_, b, c) => TreesSame(lists, lists', b, lo, hi); TreesSame(lists, lists', c, lo, hi);
    }
  }

  lemma {:induction false} TreesSame(lists: Lists, lists': Lists, k: nat, lo: nat, hi: nat)
    requires Grows(lists) && Grows(lists') && hi <= |lists| && hi <= |lists'| && lo <= k < hi
    requires AllIn(lists[k], 0, |lists|) && AllIn(lists'[k], 0, |lists'|)
    requires Sealed(lists, lo, hi)
    requires forall i :: lo <= i < hi ==> lists[i] == lists'[i]
    ensures Trees(lists, lists[k]) == Trees(lists', lists'[k])
    decreases hi - k, 0
  {
    hide Tree, Grows;
    var ns := lists[k];
    forall j | 0 <= j < |ns| ensures Tree(lists, ns[j]) == Tree(lists', ns[j]) {
      assert KidsIn(ns[j], k + 1, hi);
      TreeSame(lists, lists', ns[j], lo, hi);
    }
  }

  /** The first list made after those of a label's construct. */
  ghost function Room(l: LabelNode): nat {
    l.exprs + if l.kind == IfLabel || l.kind == TryLabel then 2 else 1
  }

  /** The first list of a label's construct. */
  ghost function Base(l: LabelNode): int {
    l.exprs - if l.kind == ElseLabel || l.kind == CatchLabel then 1 else 0
  }

  /** The label belongs to this expression, and its list is the arm its type names. */
  ghost predicate Names(l: LabelNode, n: Node) {
    match l.kind
    case FuncLabel => false
    case BlockLabel => n.BlockNode? && l.exprs == n.exprs
    case LoopLabel => n.LoopNode? && l.exprs == n.exprs
    case IfLabel => n.IfNode? && l.exprs == n.then_ && n.else_ == l.exprs + 1
    case ElseLabel => n.IfNode? && l.exprs == n.else_ && n.then_ == l.exprs - 1
    case TryLabel => n.TryNode? && l.exprs == n.block && n.catch_ == l.exprs + 1
    case CatchLabel => n.TryNode? && l.exprs == n.catch_ && n.block == l.exprs - 1
  }

  /** What a label has read (ns, and the first arm before it) owns only lists from Room(l) up to hi. */
  ghost predicate Settled(lists: Lists, l: LabelNode, ns: seq<Node>, hi: nat) {
    0 <= Base(l) && Room(l) <= hi <= |lists| &&
    AllIn(ns, Room(l), hi) && Sealed(lists, Room(l), hi) &&
    (l.kind == ElseLabel || l.kind == CatchLabel ==> AllIn(lists[Base(l)], Room(l), hi)) &&
    (l.kind == IfLabel || l.kind == TryLabel ==> lists[l.exprs + 1] == [])
  }

  ghost predicate Owns(lists: Lists, p: LabelNode, l: LabelNode) {
    p.exprs < |lists| && lists[p.exprs] != [] && Names(l, Last(lists[p.exprs]))
  }

  /**
   * The label stack below and including l: Func at the bottom, and for each higher label the last
   * expression of the list below is its construct.
   */
  ghost predicate Stacked(lists: Lists, below: seq<LabelNode>, l: LabelNode, ns: seq<Node>, hi: nat)
    decreases |below|
  {
    Settled(lists, l, ns, hi) &&
    if below == [] then
      l.kind == FuncLabel
    else
      var p := below[|below| - 1];
      Owns(lists, p, l) && Stacked(lists, below[..|below| - 1], p, Front(lists[p.exprs]), Base(l))
  }

  ghost function Front(ns: seq<Node>): seq<Node>
    requires ns != []
  {
    ns[..|ns| - 1]
  }

  ghost function Last(ns: seq<Node>): Node
    requires ns != []
  {
    ns[|ns| - 1]
  }

  ghost function SigOf(n: Node): int {
    match n
    case LeafNode(_) => 0
    case BlockNode(sig, _) => sig
    case LoopNode(sig, _) => sig
    case IfNode(sig, _, _) => sig
    case TryNode(sig, _, _) => sig
  }

  /** The open construct a settled label stands for. */
  ghost function OpenAt(lists: Lists, l: LabelNode, ns: seq<Node>, hi: nat, sig: int): Open
    requires Grows(lists) && Settled(lists, l, ns, hi)
  {
    Open(l.kind, sig,
         if l.kind == ElseLabel || l.kind == CatchLabel then Trees(lists, lists[Base(l)]) else [],
         Trees(lists, ns))
  }

  /** The stack of open constructs a label stack stands for. */
  ghost function Opens(lists: Lists, below: seq<LabelNode>, l: LabelNode, ns: seq<Node>, hi: nat): seq<Open>
    requires Grows(lists) && Stacked(lists, below, l, ns, hi)
    decreases |below|
  {
    if below == [] then
      [OpenAt(lists, l, ns, hi, 0)]
    else
      var p := below[|below| - 1];
      Opens(lists, below[..|below| - 1], p, Front(lists[p.exprs]), Base(l)) +
      [OpenAt(lists, l, ns, hi, SigOf(Last(lists[p.exprs])))]
  }

  lemma SettledSame(lists: Lists, lists': Lists, l: LabelNode, ns: seq<Node>, hi: nat, sig: int)
    requires Grows(lists) && Grows(lists') && Settled(lists, l, ns, hi) && hi <= |lists'|
    requires forall i :: 0 <= i < hi && i != l.exprs ==> lists[i] == lists'[i]
    ensures Settled(lists', l, ns, hi)
    ensures OpenAt(lists', l, ns, hi, sig) == OpenAt(lists, l, ns, hi, sig)
  {
    hide Grows, Tree;
    assert Sealed(lists', Room(l), hi);
    forall j | 0 <= j < |ns| ensures Tree(lists, ns[j]) == Tree(lists', ns[j]) {
      TreeSame(lists, lists', ns[j], Room(l), hi);
    }
    if l.kind == ElseLabel || l.kind == CatchLabel {
      var first := lists[Base(l)];
      forall j | 0 <= j < |first| ensures Tree(lists, first[j]) == Tree(lists', first[j]) {
        TreeSame(lists, lists', first[j], Room(l), hi);
      }
    }
  }

  /** Lists other than the top label's may not change under a label stack; the top label's may. */
  lemma {:induction false} StackedSame(lists: Lists, lists': Lists, below: seq<LabelNode>, l: LabelNode,
                                       ns: seq<Node>, hi: nat)
    requires Grows(lists) && Grows(lists') && Stacked(lists, below, l, ns, hi) && hi <= |lists'|
    requires forall i :: 0 <= i < hi && i != l.exprs ==> lists[i] == lists'[i]
    ensures Stacked(lists', below, l, ns, hi)
    ensures Opens(lists', below, l, ns, hi) == Opens(lists, below, l, ns, hi)
    decreases |below|
  {
    hide Grows, Settled, OpenAt;
    SettledSame(lists, lists', l, ns, hi, 0);
    if below != [] {
      var p := below[|below| - 1];
      BelowBase(lists, l, ns, hi, p);
      SettledSame(lists, lists', l, ns, hi, SigOf(Last(lists[p.exprs])));
      StackedSame(lists, lists', below[..|below| - 1], p, Front(lists[p.exprs]), Base(l));
    }
  }

  lemma BelowBase(lists: Lists, l: LabelNode, ns: seq<Node>, hi: nat, p: LabelNode)
    requires Grows(lists) && Settled(lists, l, ns, hi) && Owns(lists, p, l)
    ensures p.exprs < Base(l) <= l.exprs < hi
  {
    assert KidsIn(Last(lists[p.exprs]), p.exprs + 1, |lists|);
  }

  /** One more expression in the top label's list, owning lists made since. */
  lemma Grown(lists: Lists, below: seq<LabelNode>, l: LabelNode, ns: seq<Node>, n: Node, hi: nat, hi': nat)
    requires Grows(lists) && Stacked(lists, below, l, ns, hi) && Settled(lists, l, ns + [n], hi')
    ensures KidsIn(n, 0, |lists|) && Stacked(lists, below, l, ns + [n], hi')
    ensures var s := Opens(lists, below, l, ns, hi);
            s != [] && Opens(lists, below, l, ns + [n], hi') == s[..|s| - 1] + [s[|s| - 1].With(Tree(lists, n))]
  {
    hide Grows, Tree;
    assert KidsIn(n, Room(l), hi') by {
      assert (ns + [n])[|ns|] == n;
    }
    hide Settled;
    OpenGrown(lists, l, ns, n, hi, hi', if below == [] then 0 else SigOf(Last(lists[below[|below| - 1].exprs])));
  }

  lemma OpenGrown(lists: Lists, l: LabelNode, ns: seq<Node>, n: Node, hi: nat, hi': nat, sig: int)
    requires Grows(lists) && Settled(lists, l, ns, hi) && Settled(lists, l, ns + [n], hi') && KidsIn(n, 0, |lists|)
    ensures OpenAt(lists, l, ns + [n], hi', sig) == OpenAt(lists, l, ns, hi, sig).With(Tree(lists, n))
  {
    hide Grows, Tree, Sealed;
    var es := Trees(lists, ns + [n]);
    forall i | 0 <= i < |ns| ensures es[i] == Trees(lists, ns)[i] {
      assert (ns + [n])[i] == ns[i];
    }
    assert es == Trees(lists, ns) + [Tree(lists, n)];
  }

  /** What a label's construct becomes at its end. */
  lemma ShutIsTree(lists: Lists, l: LabelNode, hi: nat, n: Node)
    requires Grows(lists) && l.exprs < |lists| && Settled(lists, l, lists[l.exprs], hi)
    requires KidsIn(n, 0, |lists|) && Names(l, n)
    ensures OpenAt(lists, l, lists[l.exprs], hi, SigOf(n)).Shut() == Tree(lists, n)
  {
    hide Grows, Tree, Sealed;
    TreeOfArms(lists, n);
  }

  /** A closed construct's lists settle into those of the label below. */
  lemma SettledAfter(lists: Lists, p: LabelNode, l: LabelNode)
    requires Grows(lists) && l.exprs < |lists| && Settled(lists, l, lists[l.exprs], |lists|) && Owns(lists, p, l)
    requires 0 <= Base(l) && Settled(lists, p, Front(lists[p.exprs]), Base(l))
    ensures Settled(lists, p, lists[p.exprs], |lists|)
  {
    var ns := lists[p.exprs];
    forall j | 0 <= j < |ns| ensures KidsIn(ns[j], Room(p), |lists|) {
      if j < |ns| - 1 {
        assert ns[j] == Front(ns)[j];
      }
    }
    forall i | Room(p) <= i < |lists| ensures AllIn(lists[i], i + 1, |lists|) {
    }
  }

  /** The label stack's own invariant: the arena grows, and the top label's list is what it has read. */
  ghost predicate Sound(lists: Lists, labels: seq<LabelNode>) {
    Grows(lists) &&
    (labels != [] ==>
       var l := labels[|labels| - 1];
       l.exprs < |lists| && Stacked(lists, labels[..|labels| - 1], l, lists[l.exprs], |lists|))
  }

  ghost function OpenStack(lists: Lists, labels: seq<LabelNode>): (s: seq<Open>)
    requires Sound(lists, labels)
  {
    if labels == [] then [] else
    var l := labels[|labels| - 1];
    Opens(lists, labels[..|labels| - 1], l, lists[l.exprs], |lists|)
  }

  /** The bottom label is Func; every higher label's construct ends the list of the label below. */
  lemma {:induction false} StackedLabels(lists: Lists, below: seq<LabelNode>, l: LabelNode, ns: seq<Node>, hi: nat,
                                         h: nat)
    requires Stacked(lists, below, l, ns, hi) && h <= |below|
    ensures var labels := below + [l];
            if h == 0 then labels[0].kind == FuncLabel else Owns(lists, labels[h - 1], labels[h])
    decreases |below|
  {
    if below != [] && h < |below| {
      var p := below[|below| - 1];
      assert below[..|below| - 1] + [p] == below;
      StackedLabels(lists, below[..|below| - 1], p, Front(lists[p.exprs]), Base(l), h);
    }
  }

  lemma LabelsOwned(lists: Lists, labels: seq<LabelNode>, h: nat)
    requires Sound(lists, labels) && h < |labels|
    ensures if h == 0 then labels[0].kind == FuncLabel else Owns(lists, labels[h - 1], labels[h])
  {
    var l := labels[|labels| - 1];
    assert labels == labels[..|labels| - 1] + [l];
    StackedLabels(lists, labels[..|labels| - 1], l, lists[l.exprs], |lists|, h);
  }

  lemma {:induction false} OpensShape(lists: Lists, below: seq<LabelNode>, l: LabelNode, ns: seq<Node>, hi: nat, h: nat)
    requires Grows(lists) && Stacked(lists, below, l, ns, hi) && h <= |below|
    ensures var s := Opens(lists, below, l, ns, hi); |s| == |below| + 1 && s[h].kind == (below + [l])[h].kind
    decreases |below|
  {
    hide Grows, Settled;
    if below != [] {
      var n := |below| - 1;
      var p := below[n];
      assert below[..n] + [p] == below;
      OpensShape(lists, below[..n], p, Front(lists[p.exprs]), Base(l), if h <= n then h else n);
    }
  }

  /** The open constructs are the labels, kind by kind from the bottom; the bottom one is Func and no other. */
  lemma KindsMatch(lists: Lists, labels: seq<LabelNode>)
    requires Sound(lists, labels)
    ensures |OpenStack(lists, labels)| == |labels|
    ensures forall h :: 0 <= h < |labels| ==>
              OpenStack(lists, labels)[h].kind == labels[h].kind && (labels[h].kind == FuncLabel <==> h == 0)
  {
    hide Grows, Stacked, Opens;
    if labels != [] {
      var l, below := labels[|labels| - 1], labels[..|labels| - 1];
      assert labels == below + [l];
      OpensShape(lists, below, l, lists[l.exprs], |lists|, 0);
      forall h | 0 <= h < |labels|
        ensures OpenStack(lists, labels)[h].kind == labels[h].kind && (labels[h].kind == FuncLabel <==> h == 0)
      {
        OpensShape(lists, below, l, lists[l.exprs], |lists|, h);
        LabelsOwned(lists, labels, h);
      }
    }
  }

  /** The arena with one more expression in list t and empty lists after. */
  lemma GrowsWith(lists: Lists, t: nat, n: Node, more: Lists)
    requires Grows(lists) && t < |lists| && KidsIn(n, |lists|, |lists| + |more|)
    requires forall i :: 0 <= i < |more| ==> more[i] == []
    ensures Grows(lists[t := lists[t] + [n]] + more)
  {
    var lists' := lists[t := lists[t] + [n]] + more;
    forall i | 0 <= i < |lists'| ensures AllIn(lists'[i], i + 1, |lists'|) {
      if i < |lists| {
        assert AllIn(lists[i], i + 1, |lists|);
        assert i != t ==> lists'[i] == lists[i];
      }
    }
  }

  /** AppendExpr of an expression that owns no list. */
  lemma LeafAppended(lists: Lists, labels: seq<LabelNode>, op: int)
    requires Sound(lists, labels) && labels != []
    ensures var t := labels[|labels| - 1].exprs;
            var lists' := lists[t := lists[t] + [LeafNode(op)]];
            Sound(lists', labels) && Feed(OpenStack(lists, labels), LeafEvent(op)) == Ok(OpenStack(lists', labels))
  {
    hide Settled, Opens, OpenAt;
    var l, below := labels[|labels| - 1], labels[..|labels| - 1];
    var t, n := l.exprs, LeafNode(op);
    var lists' := lists[t := lists[t] + [n]];
    GrowsWith(lists, t, n, []);
    assert lists' + [] == lists';
    hide Grows;
    StackedSame(lists, lists', below, l, lists[t], |lists|);
    SettledLeaf(lists', l, lists[t], op, |lists|);
    Grown(lists', below, l, lists[t], n, |lists|, |lists|);
  }

  lemma SettledLeaf(lists: Lists, l: LabelNode, ns: seq<Node>, op: int, hi: nat)
    requires Settled(lists, l, ns, hi)
    ensures Settled(lists, l, ns + [LeafNode(op)], hi)
  {
  }

  /** The expression a begin event makes, owning the lists from k on. */
  ghost function Made(ev: Event, k: nat): Node
    requires ev.BlockEvent? || ev.LoopEvent? || ev.IfEvent? || ev.TryEvent?
  {
    match ev
    case BlockEvent(sig) => BlockNode(sig, k)
    case LoopEvent(sig) => LoopNode(sig, k)
    case IfEvent(sig) => IfNode(sig, k, k + 1)
    case TryEvent(sig) => TryNode(sig, k, k + 1)
  }

  ghost function NewLists(ev: Event): Lists
    requires ev.BlockEvent? || ev.LoopEvent? || ev.IfEvent? || ev.TryEvent?
  {
    if ev.BlockEvent? || ev.LoopEvent? then [[]] else [[], []]
  }

  lemma SettledEmpty(lists: Lists, l: LabelNode, sig: int)
    requires Grows(lists) && Room(l) == |lists| && l.kind != ElseLabel && l.kind != CatchLabel
    requires l.kind == IfLabel || l.kind == TryLabel ==> lists[l.exprs + 1] == []
    ensures Settled(lists, l, [], |lists|) && OpenAt(lists, l, [], |lists|, sig) == Open(l.kind, sig, [], [])
  {
  }

  /** A label pushed for the construct that has just been added to the top list. */
  lemma Pushed(lists: Lists, below: seq<LabelNode>, l: LabelNode, hi: nat, l': LabelNode, hi': nat)
    requires Grows(lists) && l.exprs < |lists| && lists[l.exprs] != [] && Base(l') == hi &&
             Names(l', Last(lists[l.exprs]))
    requires Stacked(lists, below, l, Front(lists[l.exprs]), hi) && Settled(lists, l', [], hi')
    ensures Stacked(lists, below + [l], l', [], hi')
    ensures Opens(lists, below + [l], l', [], hi') ==
            Opens(lists, below, l, Front(lists[l.exprs]), hi) +
            [OpenAt(lists, l', [], hi', SigOf(Last(lists[l.exprs])))]
  {
    hide Grows, Settled, OpenAt, Names, Front, Last;
    assert (below + [l])[..|below|] == below;
  }

  /** The arena after list t has got a construct and its empty lists were made. */
  ghost predicate Extends(lists: Lists, lists': Lists, t: nat, n: Node) {
    t < |lists| <= |lists'| && lists'[t] == lists[t] + [n] &&
    (forall i :: 0 <= i < |lists| && i != t ==> lists[i] == lists'[i]) &&
    forall i :: |lists| <= i < |lists'| ==> lists'[i] == []
  }

  lemma ConstructPushed(lists: Lists, lists': Lists, below: seq<LabelNode>, l: LabelNode, n: Node, l': LabelNode)
    requires Grows(lists) && Grows(lists') && Extends(lists, lists', l.exprs, n)
    requires Stacked(lists, below, l, lists[l.exprs], |lists|)
    requires l'.exprs == |lists| && Room(l') == |lists'| && l'.kind != ElseLabel && l'.kind != CatchLabel &&
             Names(l', n)
    ensures Stacked(lists', below + [l], l', [], |lists'|)
    ensures Opens(lists', below + [l], l', [], |lists'|) ==
            Opens(lists, below, l, lists[l.exprs], |lists|) + [Open(l'.kind, SigOf(n), [], [])]
  {
    hide Grows, Settled, OpenAt, Stacked, Opens, Names;
    StackedSame(lists, lists', below, l, lists[l.exprs], |lists|);
    SettledEmpty(lists', l', SigOf(n));
    assert Front(lists'[l.exprs]) == lists[l.exprs] && Last(lists'[l.exprs]) == n;
    Pushed(lists', below, l, |lists|, l', |lists'|);
  }

  /** AppendExpr of a construct, and PushLabel of its first list. */
  lemma ConstructOpened(lists: Lists, labels: seq<LabelNode>, ev: Event)
    requires Sound(lists, labels) && labels != []
    requires ev.BlockEvent? || ev.LoopEvent? || ev.IfEvent? || ev.TryEvent?
    ensures var t := labels[|labels| - 1].exprs;
            var lists' := lists[t := lists[t] + [Made(ev, |lists|)]] + NewLists(ev);
            var labels' := labels + [LabelNode(Begun(ev).kind, |lists|)];
            Sound(lists', labels') && Feed(OpenStack(lists, labels), ev) == Ok(OpenStack(lists', labels'))
  {
    hide Grows, Settled, OpenAt, Stacked, Opens, Extends;
    var l, below := labels[|labels| - 1], labels[..|labels| - 1];
    var n := Made(ev, |lists|);
    var lists' := lists[l.exprs := lists[l.exprs] + [n]] + NewLists(ev);
    var l' := LabelNode(Begun(ev).kind, |lists|);
    Extended(lists, l.exprs, n, NewLists(ev));
    hide NewLists;
    ConstructPushed(lists, lists', below, l, n, l');
    assert below + [l] == labels && lists'[l'.exprs] == [];
    SoundTop(lists', labels, l');
    OpensShape(lists, below, l, lists[l.exprs], |lists|, |below|);
  }

  lemma Extended(lists: Lists, t: nat, n: Node, more: Lists)
    requires Grows(lists) && t < |lists| && KidsIn(n, |lists|, |lists| + |more|)
    requires more == [[]] || more == [[], []]
    ensures var lists' := lists[t := lists[t] + [n]] + more;
            Grows(lists') && Extends(lists, lists', t, n) && lists'[|lists|] == []
  {
    GrowsWith(lists, t, n, more);
  }

  lemma SoundTop(lists: Lists, below: seq<LabelNode>, l: LabelNode)
    requires Grows(lists) && l.exprs < |lists| && Stacked(lists, below, l, lists[l.exprs], |lists|)
    ensures Sound(lists, below + [l])
    ensures OpenStack(lists, below + [l]) == Opens(lists, below, l, lists[l.exprs], |lists|)
  {
    hide Grows, Stacked, Opens;
    assert (below + [l])[..|below|] == below;
  }

  /** The top label moves to its construct's second arm. */
  lemma SecondArm(lists: Lists, labels: seq<LabelNode>, ev: Event)
    requires Sound(lists, labels) && |labels| >= 2
    requires var k := labels[|labels| - 1].kind;
             (k == IfLabel && ev == ElseEvent) || (k == TryLabel && ev == CatchEvent)
    ensures var l := labels[|labels| - 1];
            var l' := LabelNode(if ev == ElseEvent then ElseLabel else CatchLabel, l.exprs + 1);
            var labels' := labels[..|labels| - 1] + [l'];
            Sound(lists, labels') && Feed(OpenStack(lists, labels), ev) == Ok(OpenStack(lists, labels'))
  {
    hide Grows, Settled, OpenAt, Stacked, Opens;
    var l, below := labels[|labels| - 1], labels[..|labels| - 1];
    var l' := LabelNode(if ev == ElseEvent then ElseLabel else CatchLabel, l.exprs + 1);
    SecondArmStacked(lists, below, l, l');
    SoundTop(lists, below, l');
    OpensShape(lists, below, l, lists[l.exprs], |lists|, |below|);
  }

  lemma SecondArmStacked(lists: Lists, below: seq<LabelNode>, l: LabelNode, l': LabelNode)
    requires Grows(lists) && below != [] && l.exprs < |lists| && Stacked(lists, below, l, lists[l.exprs], |lists|)
    requires (l.kind == IfLabel && l'.kind == ElseLabel) || (l.kind == TryLabel && l'.kind == CatchLabel)
    requires l'.exprs == l.exprs + 1
    ensures l'.exprs < |lists| && Stacked(lists, below, l', lists[l'.exprs], |lists|)
    ensures var s := Opens(lists, below, l, lists[l.exprs], |lists|);
            s != [] && Opens(lists, below, l', lists[l'.exprs], |lists|) ==
                       s[..|s| - 1] + [Open(l'.kind, s[|s| - 1].sig, s[|s| - 1].exprs, [])]
  {
    hide Grows, Settled, OpenAt, Stacked, Opens;
    Below(lists, below, l, lists[l.exprs], |lists|);
    var p := below[|below| - 1];
    RoomFits(lists, l, lists[l.exprs], |lists|);
    SecondArmSettled(lists, l, l', SigOf(Last(lists[p.exprs])));
    Above(lists, below, l', lists[l'.exprs], |lists|);
  }

  lemma RoomFits(lists: Lists, l: LabelNode, ns: seq<Node>, hi: nat)
    requires Settled(lists, l, ns, hi)
    ensures Room(l) <= hi <= |lists|
  {
  }

  /** A label over a label stack. */
  lemma Above(lists: Lists, below: seq<LabelNode>, l: LabelNode, ns: seq<Node>, hi: nat)
    requires Grows(lists) && below != [] && Settled(lists, l, ns, hi) && 0 <= Base(l) &&
             Owns(lists, below[|below| - 1], l)
    requires var p := below[|below| - 1]; Stacked(lists, below[..|below| - 1], p, Front(lists[p.exprs]), Base(l))
    ensures Stacked(lists, below, l, ns, hi)
    ensures var p := below[|below| - 1];
            Opens(lists, below, l, ns, hi) ==
            Opens(lists, below[..|below| - 1], p, Front(lists[p.exprs]), Base(l)) +
            [OpenAt(lists, l, ns, hi, SigOf(Last(lists[p.exprs])))]
  {
    hide Grows, Settled, OpenAt, Names;
  }

  lemma SecondArmSettled(lists: Lists, l: LabelNode, l': LabelNode, sig: int)
    requires Grows(lists) && l.exprs + 1 < |lists| && Settled(lists, l, lists[l.exprs], |lists|) &&
             l'.exprs == l.exprs + 1
    requires (l.kind == IfLabel && l'.kind == ElseLabel) || (l.kind == TryLabel && l'.kind == CatchLabel)
    ensures Settled(lists, l', lists[l'.exprs], |lists|)
    ensures OpenAt(lists, l', lists[l'.exprs], |lists|, sig) ==
            Open(l'.kind, sig, OpenAt(lists, l, lists[l.exprs], |lists|, sig).exprs, [])
    ensures OpenAt(lists, l, lists[l.exprs], |lists|, sig).sig == sig
  {
  }

  /** What a label stack says about the label below the top. */
  lemma Below(lists: Lists, below: seq<LabelNode>, l: LabelNode, ns: seq<Node>, hi: nat)
    requires Grows(lists) && Stacked(lists, below, l, ns, hi) && below != []
    ensures var p, rest := below[|below| - 1], below[..|below| - 1];
            Owns(lists, p, l) && 0 <= Base(l) && Settled(lists, l, ns, hi) &&
            Settled(lists, p, Front(lists[p.exprs]), Base(l)) &&
            Stacked(lists, rest, p, Front(lists[p.exprs]), Base(l)) &&
            Opens(lists, below, l, ns, hi) ==
            Opens(lists, rest, p, Front(lists[p.exprs]), Base(l)) +
            [OpenAt(lists, l, ns, hi, SigOf(Last(lists[p.exprs])))]
  {
    hide Grows, OpenAt, Names;
    var p, rest := below[|below| - 1], below[..|below| - 1];
    assert Stacked(lists, rest, p, Front(lists[p.exprs]), Base(l));
  }

  /** The top construct is closed and its label popped. */
  lemma Closed(lists: Lists, labels: seq<LabelNode>)
    requires Sound(lists, labels) && |labels| >= 2
    ensures Sound(lists, labels[..|labels| - 1])
    ensures Feed(OpenStack(lists, labels), EndEvent) == Ok(OpenStack(lists, labels[..|labels| - 1]))
  {
    hide Grows, OpenAt, Settled, Stacked, Opens, Tree;
    var l, below := labels[|labels| - 1], labels[..|labels| - 1];
    Below(lists, below, l, lists[l.exprs], |lists|);
    var p, rest := below[|below| - 1], below[..|below| - 1];
    var ns := lists[p.exprs];
    var n := Last(ns);
    assert Front(ns) + [n] == ns;
    SettledAfter(lists, p, l);
    Grown(lists, rest, p, Front(ns), n, Base(l), |lists|);
    ShutIsTree(lists, l, |lists|, n);
    OpensShape(lists, rest, p, Front(ns), Base(l), |rest|);
    OpensShape(lists, below, l, lists[l.exprs], |lists|, |below|);
    var s := Opens(lists, rest, p, Front(ns), Base(l));
    var o := OpenStack(lists, labels);
    assert o == s + [o[|o| - 1]] && o[..|o| - 2] == s[..|s| - 1];
  }

  class BinaryReaderIR {
    var lists: Lists
    var labelStack: seq<LabelNode>

    constructor ()
      ensures Valid() && labelStack == []
    {
      lists, labelStack := [], [];
    }

    ghost predicate Valid()
      reads this
    {
      Sound(lists, labelStack)
    }

    /** The open constructs. */
    ghost function Constructs(): seq<Open>
      requires Valid()
      reads this
    {
      OpenStack(lists, labelStack)
    }

    /** Did what the event does to the open constructs, or failed and changed nothing. */
    ghost predicate Fed(stack: seq<Open>, lists0: Lists, labels0: seq<LabelNode>, ev: Event, r: Result<()>)
      reads this
    {
      Valid() &&
      match Feed(stack, ev)
      case Ok(s) => r.Ok? && Constructs() == s
      case Error => r.Error? && lists == lists0 && labelStack == labels0
    }

    method PushLabel(kind: LabelType, exprs: nat)
      modifies this`labelStack
      ensures labelStack == old(labelStack) + [LabelNode(kind, exprs)]
    {
      labelStack := labelStack + [LabelNode(kind, exprs)];
    }

    method PopLabel() returns (r: Result<()>)
      modifies this`labelStack
      ensures r.Ok? <==> old(labelStack) != []
      ensures labelStack == if r.Ok? then old(labelStack)[..|old(labelStack)| - 1] else old(labelStack)
    {
      if |labelStack| == 0 {
        return Error;
      }
      labelStack := labelStack[..|labelStack| - 1];
      r := Ok(());
    }

    /** The place in the stack of the label at a depth. */
    method GetLabelAt(depth: nat) returns (r: Result<nat>)
      ensures r == if depth < |labelStack| then Ok(|labelStack| - depth - 1) else Error
    {
      if depth >= |labelStack| {
        return Error;
      }
      r := Ok(|labelStack| - depth - 1);
    }

    /** The top label and the last expression of the list below it, which is the label's construct. */
    method TopLabelExpr() returns (r: Result<(LabelNode, Node)>)
      requires Valid()
      ensures r.Ok? <==> |labelStack| >= 2
      ensures r.Ok? ==> r.value.0 == labelStack[|labelStack| - 1] && Names(r.value.0, r.value.1)
    {
      var top := GetLabelAt(0);
      if top.Error? {
        return Error;
      }
      var parent := GetLabelAt(1);
      if parent.Error? {
        return Error;
      }
      hide Stacked, Grows, Names;
      LabelsOwned(lists, labelStack, |labelStack| - 1);
      var exprs := lists[labelStack[parent.value].exprs];
      r := Ok((labelStack[top.value], exprs[|exprs| - 1]));
    }

    /** Appends to the top label's list. */
    method AppendExpr(n: Node) returns (r: Result<()>)
      requires labelStack != [] ==> labelStack[|labelStack| - 1].exprs < |lists|
      modifies this`lists
      ensures r.Ok? <==> labelStack != []
      ensures lists == if r.Error? then old(lists) else
                       var t := labelStack[|labelStack| - 1].exprs;
                       old(lists)[t := old(lists)[t] + [n]]
    {
      var top := GetLabelAt(0);
      if top.Error? {
        return Error;
      }
      var t := labelStack[top.value].exprs;
      lists := lists[t := lists[t] + [n]];
      r := Ok(());
    }

    method BeginFunctionBody()
      requires Valid() && labelStack == []
      modifies this
      ensures Valid() && Constructs() == [Open(FuncLabel, 0, [], [])]
    {
      lists := lists + [[]];
      PushLabel(FuncLabel, |lists| - 1);
    }

    method OnLeaf(op: int) returns (r: Result<()>)
      requires Valid()
      modifies this
      ensures Fed(old(Constructs()), old(lists), old(labelStack), LeafEvent(op), r)
    {
      hide Grows, Stacked, Opens;
      if labelStack != [] {
        LeafAppended(lists, labelStack, op);
      }
      r := AppendExpr(LeafNode(op));
    }

    method OnBlock(sig: int) returns (r: Result<()>)
      requires Valid()
      modifies this
      ensures Fed(old(Constructs()), old(lists), old(labelStack), BlockEvent(sig), r)
    {
      hide Grows, Stacked, Opens;
      if labelStack != [] {
        ConstructOpened(lists, labelStack, BlockEvent(sig));
      }
      var k := |lists|;
      r := AppendExpr(BlockNode(sig, k));
      if r.Error? {
        return;
      }
      lists := lists + [[]];
      PushLabel(BlockLabel, k);
    }

    method OnLoop(sig: int) returns (r: Result<()>)
      requires Valid()
      modifies this
      ensures Fed(old(Constructs()), old(lists), old(labelStack), LoopEvent(sig), r)
    {
      hide Grows, Stacked, Opens;
      if labelStack != [] {
        ConstructOpened(lists, labelStack, LoopEvent(sig));
      }
      var k := |lists|;
      r := AppendExpr(LoopNode(sig, k));
      if r.Error? {
        return;
      }
      lists := lists + [[]];
      PushLabel(LoopLabel, k);
    }

    method OnIf(sig: int) returns (r: Result<()>)
      requires Valid()
      modifies this
      ensures Fed(old(Constructs()), old(lists), old(labelStack), IfEvent(sig), r)
    {
      hide Grows, Stacked, Opens;
      if labelStack != [] {
        ConstructOpened(lists, labelStack, IfEvent(sig));
      }
      var k := |lists|;
      r := AppendExpr(IfNode(sig, k, k + 1));
      if r.Error? {
        return;
      }
      lists := lists + [[], []];
      PushLabel(IfLabel, k);
    }

    method OnTry(sig: int) returns (r: Result<()>)
      requires Valid()
      modifies this
      ensures Fed(old(Constructs()), old(lists), old(labelStack), TryEvent(sig), r)
    {
      hide Grows, Stacked, Opens;
      if labelStack != [] {
        ConstructOpened(lists, labelStack, TryEvent(sig));
      }
      var k := |lists|;
      r := AppendExpr(TryNode(sig, k, k + 1));
      if r.Error? {
        return;
      }
      lists := lists + [[], []];
      PushLabel(TryLabel, k);
    }

    method OnElse() returns (r: Result<()>)
      requires Valid()
      modifies this
      ensures Fed(old(Constructs()), old(lists), old(labelStack), ElseEvent, r)
    {
      hide Grows, Stacked, Opens;
      KindsMatch(lists, labelStack);
      var top := TopLabelExpr();
      if top.Error? {
        return Error;
      }
      var (l, expr) := top.value;
      if l.kind == IfLabel {
        SecondArm(lists, labelStack, ElseEvent);
        labelStack := labelStack[..|labelStack| - 1] + [LabelNode(ElseLabel, expr.else_)];
        r := Ok(());
      } else {
        r := Error;
      }
    }

    method OnCatch() returns (r: Result<()>)
      requires Valid()
      modifies this
      ensures Fed(old(Constructs()), old(lists), old(labelStack), CatchEvent, r)
    {
      hide Grows, Stacked, Opens;
      KindsMatch(lists, labelStack);
      var top := GetLabelAt(0);
      if top.Error? {
        return Error;
      }
      var l := labelStack[top.value];
      if l.kind != TryLabel {
        return Error;
      }
      var parent := GetLabelAt(1);
      if parent.Error? {
        return Error;
      }
      LabelsOwned(lists, labelStack, top.value);
      SecondArm(lists, labelStack, CatchEvent);
      var exprs := lists[labelStack[parent.value].exprs];
      labelStack := labelStack[top.value := LabelNode(CatchLabel, exprs[|exprs| - 1].catch_)];
      assert labelStack == old(labelStack)[..top.value] + [LabelNode(CatchLabel, l.exprs + 1)];
      r := Ok(());
    }

    method OnEnd() returns (r: Result<()>)
      requires Valid()
      modifies this
      ensures Fed(old(Constructs()), old(lists), old(labelStack), EndEvent, r)
    {
      hide Grows, Stacked, Opens;
      KindsMatch(lists, labelStack);
      var top := TopLabelExpr();
      if top.Error? {
        return Error;
      }
      var (l, expr) := top.value;
      match l.kind {
        case BlockLabel => assert expr.BlockNode?;
        case LoopLabel => assert expr.LoopNode?;
        case IfLabel | ElseLabel => assert expr.IfNode?;
        case TryLabel => assert expr.TryNode?;
        case FuncLabel | CatchLabel =>
      }
      Closed(lists, labelStack);
      r := PopLabel();
    }

    /** One event, by the callback for it. */
    method OnEvent(ev: Event) returns (r: Result<()>)
      requires Valid()
      modifies this
      ensures Fed(old(Constructs()), old(lists), old(labelStack), ev, r)
    {
      match ev {
        case LeafEvent(op) => r := OnLeaf(op);
        case BlockEvent(sig) => r := OnBlock(sig);
        case LoopEvent(sig) => r := OnLoop(sig);
        case IfEvent(sig) => r := OnIf(sig);
        case TryEvent(sig) => r := OnTry(sig);
        case ElseEvent => r := OnElse();
        case CatchEvent => r := OnCatch();
        case EndEvent => r := OnEnd();
      }
    }

    /** A body's events one by one, up to the first that fails. */
    method ReadBody(evs: seq<Event>) returns (r: Result<()>)
      requires Valid()
      modifies this
      ensures Valid()
      ensures match FeedAll(old(Constructs()), evs)
              case Ok(s) => r.Ok? && Constructs() == s
              case Error => r.Error?
    {
      hide Feed, Sound, OpenStack;
      var i := 0;
      while i < |evs|
        invariant 0 <= i <= |evs| && Valid()
        invariant FeedAll(Constructs(), evs[i..]) == FeedAll(old(Constructs()), evs)
      {
        assert evs[i..][1..] == evs[i + 1..];
        r := OnEvent(evs[i]);
        if r.Error? {
          return;
        }
        i := i + 1;
      }
      r := Ok(());
    }
  }
}
