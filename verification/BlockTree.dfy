/** The block hierarchy that convertor.cpp rebuilds from a flat list of instructions. */
module BlockTree {
  import opened Common

  /** A wasm instruction, as far as the nesting of blocks goes. */
  datatype Op = If | Block | Loop | Else | End | Other

  datatype Kind = NoBlock | IfBlock | BlockBlock | ElseBlock | LoopBlock | FuncBlock

  /** WINST_BLK; an end of 0 means that the block is still open. */
  datatype Blk = Blk(kind: Kind, parent: nat, child: seq<nat>, start: nat, end: nat)

  const FUNCTION := 1

  type Blocks = seq<Blk>

  /** The state of the scan: the block vector, the stack of open blocks with the top one last, and the next pc. */
  datatype Scan = Scan(blocks: Blocks, work: seq<nat>, pc: nat) {
    ghost predicate Valid() {
      blocks != [] && forall j :: 0 <= j < |work| ==> 0 < work[j] < |blocks|
    }
  }

  function Top(s: seq<nat>): nat
    requires s != []
  {
    s[|s| - 1]
  }

  /** Create_new_block. */
  function Created(s: Scan, kind: Kind): (t: Scan)
    requires s.Valid()
    ensures t.Valid()
  {
    var id := |s.blocks|;
    if s.work == [] then
      Scan(s.blocks + [Blk(kind, 0, [], s.pc, 0)], [id], s.pc)
    else
      var p := Top(s.work);
      var b := s.blocks[p];
      Scan(s.blocks[p := b.(child := b.child + [id])] + [Blk(kind, p, [], s.pc, 0)], s.work + [id], s.pc)
  }

  /** Finish_old_block. */
  function Finished(s: Scan): (t: Scan)
    requires s.Valid() && s.work != []
    ensures t.Valid()
  {
    var p := Top(s.work);
    Scan(s.blocks[p := s.blocks[p].(end := s.pc)], s.work[..|s.work| - 1], s.pc)
  }

  /** The placeholder block and the function's. */
  function Start(): (s: Scan)
    ensures s.Valid()
  {
    Created(Scan([Blk(NoBlock, 0, [], 0, 0)], [], 1), FuncBlock)
  }

  /** One instruction; an end with nothing open is skipped without counting, and a stray else is an assertion
      failure. */
  function Stepped(s: Scan, op: Op): (r: Result<Scan>)
    requires s.Valid()
    ensures r.Ok? ==> r.value.Valid()
  {
    var pc' := s.pc + 1;
    match op
    case If => Ok(Created(s, IfBlock).(pc := pc'))
    case Block => Ok(Created(s, BlockBlock).(pc := pc'))
    case Loop => Ok(Created(s, LoopBlock).(pc := pc'))
    case Else =>
      if s.work == [] || s.blocks[Top(s.work)].kind != IfBlock then Error
      else Ok(Created(Finished(s), ElseBlock).(pc := pc'))
    case End => if s.work == [] then Ok(s) else Ok(Finished(s).(pc := pc'))
    case Other => Ok(s.(pc := pc'))
  }

  /** The scan before instruction k. */
  function ScanAt(ins: seq<Op>, k: nat): (r: Result<Scan>)
    requires k <= |ins|
    ensures r.Ok? ==> r.value.Valid()
    decreases k
  {
    if k == 0 then Ok(Start()) else
    match ScanAt(ins, k - 1)
    case Ok(s) => Stepped(s, ins[k - 1])
    case Error => Error
  }

  /** What a balanced list does to the kinds of the open blocks; None for a stray else or after the function's end. */
  datatype Nest = None | Some(kinds: seq<Kind>)

  function Nested(ks: seq<Kind>, op: Op): Nest {
    if ks == [] then None else
    match op
    case If => Some(ks + [IfBlock])
    case Block => Some(ks + [BlockBlock])
    case Loop => Some(ks + [LoopBlock])
    case Else => if ks[|ks| - 1] == IfBlock then Some(ks[..|ks| - 1] + [ElseBlock]) else None
    case End => Some(ks[..|ks| - 1])
    case Other => Some(ks)
  }

  /** The kinds of the blocks open before instruction k. */
  function NestAt(ins: seq<Op>, k: nat): Nest
    requires k <= |ins|
    decreases k
  {
    if k == 0 then Some([FuncBlock]) else
    match NestAt(ins, k - 1)
    case None => None
    case Some(ks) => Nested(ks, ins[k - 1])
  }

  /** Every block is ended, else follows if, and the function's end is the last instruction. */
  predicate Balanced(ins: seq<Op>) {
    NestAt(ins, |ins|) == Some([])
  }

  lemma {:induction false} BalancedBefore(ins: seq<Op>, k: nat, m: nat)
    requires k < m <= |ins| && NestAt(ins, m).Some?
    ensures NestAt(ins, k).Some? && NestAt(ins, k).kinds != []
    decreases m - k
  {
    if k + 1 < m {
      BalancedBefore(ins, k + 1, m);
    }
  }

  /** Block c has an earlier parent that lists it. */
  ghost predicate HasParent(B: Blocks, c: nat) {
    c < |B| && B[c].kind != NoBlock && B[c].kind != FuncBlock && 1 <= B[c].parent < c && c in B[B[c].parent].child
  }

  /** Child x of block p is a later block whose parent is p. */
  ghost predicate HasChild(B: Blocks, p: nat, x: nat) {
    p < |B| && x < |B[p].child| && p < B[p].child[x] < |B| && B[B[p].child[x]].parent == p
  }

  /** Blocks are numbered from parent to child; block 0 is the placeholder and block 1 the function. */
  ghost predicate Numbered(B: Blocks) {
    |B| >= 2 && B[0].kind == NoBlock && B[0].child == [] && B[0].end == 0 &&
    B[1].kind == FuncBlock && B[1].parent == 0 && B[1].start == 1 &&
    (forall c :: 2 <= c < |B| ==> HasParent(B, c)) &&
    (forall p, x :: 0 <= p < |B| && 0 <= x < |B[p].child| ==> HasChild(B, p, x))
  }

  /** Block c starts inside its parent, and ends before it. */
  ghost predicate InsideParent(B: Blocks, c: nat) {
    c < |B| && B[c].parent < |B| &&
    var p := B[c].parent;
    (B[p].start < B[c].start || (p == FUNCTION && B[p].start == B[c].start)) &&
    (B[p].end != 0 ==> 0 < B[c].end < B[p].end) && (B[c].end != 0 ==> B[c].start < B[c].end)
  }

  ghost predicate Inside(B: Blocks) {
    forall c :: 2 <= c < |B| ==> InsideParent(B, c)
  }

  /** Child x of p is over when child y starts; only an if and the else after it meet. */
  ghost predicate Precedes(B: Blocks, p: nat, x: nat, y: nat) {
    p < |B| && x < y < |B[p].child| && B[p].child[x] < B[p].child[y] < |B| &&
    var c, d := B[B[p].child[x]], B[B[p].child[y]];
    c.end != 0 && (c.end < d.start || (c.end == d.start && c.kind == IfBlock && d.kind == ElseBlock && y == x + 1))
  }

  ghost predicate Ordered(B: Blocks) {
    forall p, x, y :: 0 <= p < |B| && 0 <= x < y < |B[p].child| ==> Precedes(B, p, x, y)
  }

  ghost predicate IsOpen(s: Scan, i: nat) {
    i < |s.blocks| && (s.blocks[i].end == 0 <==> i in s.work)
  }

  ghost predicate Follows(s: Scan, j: nat) {
    0 < j < |s.work| && s.work[j] < |s.blocks| && s.blocks[s.work[j]].parent == s.work[j - 1]
  }

  /** The open blocks are a chain from the function down. */
  ghost predicate Chained(s: Scan) {
    s.Valid() && (s.work != [] ==> s.work[0] == FUNCTION) &&
    (forall j :: 0 < j < |s.work| ==> Follows(s, j)) && forall i :: 1 <= i < |s.blocks| ==> IsOpen(s, i)
  }

  ghost predicate PastAt(B: Blocks, i: nat, pc: nat, just: nat) {
    i < |B| && (i >= 2 ==> 1 <= B[i].start < pc) && (B[i].end < pc || (i == just && B[i].end == pc))
  }

  /** What has been scanned lies before pc, but for the if block an else has just ended. */
  ghost predicate Past(B: Blocks, pc: nat, just: nat) {
    1 <= pc && forall i :: 0 <= i < |B| ==> PastAt(B, i, pc, just)
  }

  ghost predicate Shape(s: Scan, just: nat) {
    Numbered(s.blocks) && Inside(s.blocks) && Ordered(s.blocks) && Chained(s) && Past(s.blocks, s.pc, just)
  }

  /** C is B with a block of its own added under p. */
  ghost predicate Grew(B: Blocks, C: Blocks, p: nat, kind: Kind, pc: nat) {
    0 < p < |B| && |C| == |B| + 1 && C[|B|] == Blk(kind, p, [], pc, 0) &&
    C[p] == B[p].(child := B[p].child + [|B|]) && forall i :: 0 <= i < |B| && i != p ==> C[i] == B[i]
  }

  /** C is B with block p ended. */
  ghost predicate Closed(B: Blocks, C: Blocks, p: nat, pc: nat) {
    0 < p < |B| == |C| && C[p] == B[p].(end := pc) && forall i :: 0 <= i < |B| && i != p ==> C[i] == B[i]
  }

  lemma NumberedGrows(B: Blocks, C: Blocks, p: nat, kind: Kind, pc: nat)
    requires Numbered(B) && Grew(B, C, p, kind, pc) && kind != NoBlock && kind != FuncBlock
    ensures Numbered(C)
  {
    var n := |B|;
    forall c | 2 <= c < |C| ensures HasParent(C, c) {
      if c < n {
        assert HasParent(B, c);
      } else {
        assert C[p].child[|B[p].child|] == n;
      }
    }
    forall q, x | 0 <= q < |C| && 0 <= x < |C[q].child| ensures HasChild(C, q, x) {
      if q < n && x < |B[q].child| {
        assert HasChild(B, q, x);
      }
    }
  }

  lemma InsideGrows(B: Blocks, C: Blocks, p: nat, kind: Kind, pc: nat)
    requires Grew(B, C, p, kind, pc) && Inside(B) && (forall c :: 2 <= c < |B| ==> HasParent(B, c))
    requires B[p].end == 0 && (B[p].start < pc || (p == FUNCTION && B[p].start == pc))
    ensures Inside(C)
  {
    forall c | 2 <= c < |C| ensures InsideParent(C, c) {
      if c < |B| {
        assert HasParent(B, c) && InsideParent(B, c);
      }
    }
  }

  lemma OrderedGrows(B: Blocks, C: Blocks, p: nat, kind: Kind, pc: nat, just: nat)
    requires Numbered(B) && Grew(B, C, p, kind, pc) && Ordered(B) && Past(B, pc, just)
    requires forall x :: 0 <= x < |B[p].child| ==> HasChild(B, p, x) && B[B[p].child[x]].end != 0
    requires just != 0 ==>
               kind == ElseBlock && B[p].child != [] && Top(B[p].child) == just < |B| && B[just].kind == IfBlock
    ensures Ordered(C)
  {
    forall q, x, y | 0 <= q < |C| && 0 <= x < y < |C[q].child| ensures Precedes(C, q, x, y) {
      assert HasChild(B, q, x);
      var c := B[q].child[x];
      if y < |B[q].child| {
        assert Precedes(B, q, x, y) && HasChild(B, q, y);
      } else {
        assert PastAt(B, c, pc, just);
        if x + 1 < |B[q].child| {
          assert Precedes(B, q, x, |B[q].child| - 1);
        }
      }
    }
  }

  lemma PastGrows(B: Blocks, C: Blocks, p: nat, kind: Kind, pc: nat, just: nat)
    requires Grew(B, C, p, kind, pc) && Past(B, pc, just)
    ensures Past(C, pc + 1, 0)
  {
    var next := pc + 1;
    forall i | 0 <= i < |C| ensures PastAt(C, i, next, 0) {
      if i < |B| {
        assert PastAt(B, i, pc, just);
      }
    }
  }

  lemma ChainedGrows(s: Scan, t: Scan, kind: Kind)
    requires Chained(s) && s.work != []
    requires Grew(s.blocks, t.blocks, Top(s.work), kind, s.pc) && t.work == s.work + [|s.blocks|]
    ensures Chained(t)
  {
    forall j | 0 < j < |t.work| ensures Follows(t, j) {
      if j < |s.work| {
        assert Follows(s, j);
      }
    }
    forall i | 1 <= i < |t.blocks| ensures IsOpen(t, i) {
      if i < |s.blocks| {
        assert IsOpen(s, i);
      }
    }
  }

  lemma NumberedCloses(B: Blocks, C: Blocks, p: nat, pc: nat)
    requires Numbered(B) && Closed(B, C, p, pc)
    ensures Numbered(C)
  {
    forall c | 2 <= c < |C| ensures HasParent(C, c) {
      assert HasParent(B, c);
    }
    forall q, x | 0 <= q < |C| && 0 <= x < |C[q].child| ensures HasChild(C, q, x) {
      assert HasChild(B, q, x);
    }
  }

  lemma InsideCloses(B: Blocks, C: Blocks, p: nat, pc: nat)
    requires Closed(B, C, p, pc) && Inside(B) && B[p].end == 0 && (p >= 2 ==> B[p].start < pc)
    requires forall c :: 2 <= c < |B| && B[c].parent == p ==> 0 < B[c].end < pc
    requires forall c :: 2 <= c < |B| ==> HasParent(B, c)
    ensures Inside(C)
  {
    forall c | 2 <= c < |C| ensures InsideParent(C, c) {
      assert InsideParent(B, c) && HasParent(B, c);
    }
  }

  lemma OrderedCloses(B: Blocks, C: Blocks, p: nat, pc: nat)
    requires Closed(B, C, p, pc) && Ordered(B) && B[p].end == 0
    ensures Ordered(C)
  {
    forall q, x, y | 0 <= q < |C| && 0 <= x < y < |C[q].child| ensures Precedes(C, q, x, y) {
      assert Precedes(B, q, x, y);
    }
  }

  lemma PastCloses(B: Blocks, C: Blocks, p: nat, pc: nat)
    requires Closed(B, C, p, pc) && Past(B, pc, 0) && B[0].end == 0
    ensures Past(C, pc, p) && Past(C, pc + 1, 0)
  {
    var next := pc + 1;
    forall i | 0 <= i < |C| ensures PastAt(C, i, pc, p) && PastAt(C, i, next, 0) {
      assert PastAt(B, i, pc, 0);
    }
  }

  /** The chain of open blocks ascends. */
  lemma {:induction false} WorkAscends(s: Scan, i: nat, j: nat)
    requires Numbered(s.blocks) && Chained(s) && i < j < |s.work|
    ensures s.work[i] < s.work[j]
    decreases j
  {
    assert Follows(s, j);
    if s.work[j] >= 2 {
      assert HasParent(s.blocks, s.work[j]);
    }
    if i < j - 1 {
      WorkAscends(s, i, j - 1);
    }
  }

  lemma ChainedCloses(s: Scan, t: Scan)
    requires Numbered(s.blocks) && Chained(s) && s.work != [] && s.pc > 0
    requires Closed(s.blocks, t.blocks, Top(s.work), s.pc) && t.work == s.work[..|s.work| - 1]
    ensures Chained(t)
  {
    var p, m := Top(s.work), |s.work| - 1;
    forall j | 0 < j < |t.work| ensures Follows(t, j) {
      assert Follows(s, j);
    }
    forall i | 1 <= i < |t.blocks| ensures IsOpen(t, i) {
      assert IsOpen(s, i);
      if i == p {
        forall j | 0 <= j < m ensures s.work[j] != p {
          WorkAscends(s, j, m);
        }
      } else if i in s.work {
        var j :| 0 <= j < |s.work| && s.work[j] == i;
        assert t.work[j] == i;
      }
    }
  }

  /** A child of an open block is over, or open just above it. */
  lemma OpenChild(s: Scan, j: nat, c: nat)
    requires Numbered(s.blocks) && Chained(s) && j < |s.work| && 2 <= c < |s.blocks| && s.blocks[c].parent == s.work[j]
    ensures s.blocks[c].end != 0 || (j + 1 < |s.work| && s.work[j + 1] == c)
  {
    assert IsOpen(s, c);
    if s.blocks[c].end == 0 {
      var m :| 0 <= m < |s.work| && s.work[m] == c;
      assert Follows(s, m);
      if m - 1 < j {
        WorkAscends(s, m - 1, j);
      } else if j < m - 1 {
        WorkAscends(s, j, m - 1);
      }
    }
  }

  lemma TopChildrenOver(s: Scan)
    requires Shape(s, 0) && s.work != []
    ensures forall c :: 2 <= c < |s.blocks| && s.blocks[c].parent == Top(s.work) ==> 0 < s.blocks[c].end < s.pc
    ensures s.blocks[Top(s.work)].end == 0 && (Top(s.work) >= 2 ==> s.blocks[Top(s.work)].start < s.pc)
  {
    var p := Top(s.work);
    forall c | 2 <= c < |s.blocks| && s.blocks[c].parent == p ensures 0 < s.blocks[c].end < s.pc {
      OpenChild(s, |s.work| - 1, c);
      assert PastAt(s.blocks, c, s.pc, 0);
    }
    assert IsOpen(s, p) && PastAt(s.blocks, p, s.pc, 0);
  }

  /** An end. */
  lemma FinishedShape(s: Scan)
    requires Shape(s, 0) && s.work != []
    ensures var t := Finished(s);
            Shape(t, Top(s.work)) && Shape(t.(pc := s.pc + 1), 0)
  {
    assert s.Valid() && s.blocks[0].end == 0;
    hide Numbered, Inside, Ordered, Chained, Past;
    var t, p := Finished(s), Top(s.work);
    TopChildrenOver(s);
    assert Closed(s.blocks, t.blocks, p, s.pc);
    PastOne(s.blocks, s.pc, 0);
    HasParents(s.blocks);
    NumberedCloses(s.blocks, t.blocks, p, s.pc);
    InsideCloses(s.blocks, t.blocks, p, s.pc);
    OrderedCloses(s.blocks, t.blocks, p, s.pc);
    PastCloses(s.blocks, t.blocks, p, s.pc);
    ChainedCloses(s, t);
    ChainedCloses(s, t.(pc := s.pc + 1));
  }

  lemma PastOne(B: Blocks, pc: nat, just: nat)
    requires Past(B, pc, just)
    ensures 1 <= pc
  {
  }

  lemma HasParents(B: Blocks)
    requires Numbered(B)
    ensures forall c :: 2 <= c < |B| ==> HasParent(B, c)
  {
  }

  /** The children of the top block are over when a block is made under it. */
  lemma CreatedShape(s: Scan, kind: Kind, just: nat)
    requires Shape(s, just) && s.work != [] && kind != NoBlock && kind != FuncBlock
    requires forall c :: 2 <= c < |s.blocks| && s.blocks[c].parent == Top(s.work) ==> s.blocks[c].end != 0
    requires s.blocks[Top(s.work)].end == 0 && (Top(s.work) >= 2 ==> s.blocks[Top(s.work)].start < s.pc)
    requires var B, p := s.blocks, Top(s.work);
             just != 0 ==>
               kind == ElseBlock && B[p].child != [] && Top(B[p].child) == just < |B| && B[just].kind == IfBlock
    ensures Shape(Created(s, kind).(pc := s.pc + 1), 0)
  {
    assert s.Valid() && s.blocks[0].end == 0;
    hide Numbered, Inside, Ordered, Chained, Past;
    var t, p := Created(s, kind).(pc := s.pc + 1), Top(s.work);
    assert Grew(s.blocks, t.blocks, p, kind, s.pc);
    PastOne(s.blocks, s.pc, just);
    HasParents(s.blocks);
    FunctionStart(s.blocks);
    ChildrenOf(s.blocks, p);
    NumberedGrows(s.blocks, t.blocks, p, kind, s.pc);
    InsideGrows(s.blocks, t.blocks, p, kind, s.pc);
    OrderedGrows(s.blocks, t.blocks, p, kind, s.pc, just);
    PastGrows(s.blocks, t.blocks, p, kind, s.pc, just);
    ChainedGrows(s, t, kind);
  }

  lemma FunctionStart(B: Blocks)
    requires Numbered(B)
    ensures |B| >= 2 && B[FUNCTION].start == 1
  {
  }

  lemma ChildrenOf(B: Blocks, p: nat)
    requires Numbered(B) && p < |B|
    ensures forall x :: 0 <= x < |B[p].child| ==> HasChild(B, p, x) && 2 <= B[p].child[x]
  {
    forall x | 0 <= x < |B[p].child| ensures HasChild(B, p, x) && 2 <= B[p].child[x] {
      assert HasChild(B, p, x);
      if B[p].child[x] == 1 {
        assert p == 0;
      }
    }
  }

  /** Kind by kind, the open blocks. */
  ghost predicate Kinds(s: Scan, ks: seq<Kind>) {
    |s.work| == |ks| && forall j :: 0 <= j < |ks| ==> s.work[j] < |s.blocks| && s.blocks[s.work[j]].kind == ks[j]
  }

  lemma StartShape()
    ensures Shape(Start(), 0) && Kinds(Start(), [FuncBlock]) && Start().pc == 1 && |Start().blocks| == 2
  {
    var s := Start();
    forall i | 0 <= i < |s.blocks| ensures PastAt(s.blocks, i, 1, 0) {
    }
    forall i | 1 <= i < |s.blocks| ensures IsOpen(s, i) {
    }
  }

  /** A block is opened. */
  lemma OpenedShape(s: Scan, kind: Kind, ks: seq<Kind>)
    requires Shape(s, 0) && Kinds(s, ks) && ks != [] && kind != NoBlock && kind != FuncBlock
    ensures s.Valid() && var t := Created(s, kind).(pc := s.pc + 1);
            Shape(t, 0) && Kinds(t, ks + [kind]) && |t.blocks| == |s.blocks| + 1
  {
    assert s.Valid();
    hide Shape;
    TopChildrenOver(s);
    forall c | 2 <= c < |s.blocks| && s.blocks[c].parent == Top(s.work) ensures s.blocks[c].end != 0 {
    }
    CreatedShape(s, kind, 0);
    var t := Created(s, kind);
    forall j | 0 <= j < |ks| + 1 ensures t.work[j] < |t.blocks| && t.blocks[t.work[j]].kind == (ks + [kind])[j] {
      if j < |ks| {
        assert s.blocks[s.work[j]].kind == ks[j];
      }
    }
  }

  /** The top block is ended. */
  lemma EndedShape(s: Scan, ks: seq<Kind>)
    requires Shape(s, 0) && Kinds(s, ks) && ks != []
    ensures s.Valid() && var t := Finished(s);
            Shape(t, Top(s.work)) && Kinds(t, ks[..|ks| - 1]) && |t.blocks| == |s.blocks| &&
            Shape(t.(pc := s.pc + 1), 0) && Kinds(t.(pc := s.pc + 1), ks[..|ks| - 1])
  {
    assert s.Valid();
    hide Shape;
    FinishedShape(s);
    var t := Finished(s);
    forall j | 0 <= j < |ks| - 1 ensures t.work[j] < |t.blocks| && t.blocks[t.work[j]].kind == ks[j] {
      assert s.blocks[s.work[j]].kind == ks[j];
    }
  }

  /** The open block above another is its last child. */
  lemma LastChild(s: Scan, j: nat)
    requires Shape(s, 0) && j + 1 < |s.work|
    ensures var B, p := s.blocks, s.work[j]; p < |B| && B[p].child != [] && Top(B[p].child) == s.work[j + 1]
  {
    var B, p, c := s.blocks, s.work[j], s.work[j + 1];
    assert Follows(s, j + 1) && IsOpen(s, c);
    WorkAscends(s, j, j + 1);
    assert HasParent(B, c);
    var x :| 0 <= x < |B[p].child| && B[p].child[x] == c;
    if x < |B[p].child| - 1 {
      OverUnlessLast(B, p, x);
    }
  }

  lemma OverUnlessLast(B: Blocks, p: nat, x: nat)
    requires Ordered(B) && p < |B| && x < |B[p].child| - 1
    ensures B[p].child[x] < |B| && B[B[p].child[x]].end != 0
  {
    assert Precedes(B, p, x, |B[p].child| - 1);
  }

  /** Once the if is ended, its else can be opened under the same parent. */
  lemma ReadyForElse(s: Scan, ks: seq<Kind>)
    requires Shape(s, 0) && Kinds(s, ks) && ks != [] && ks[|ks| - 1] == IfBlock
    ensures s.Valid() && |s.work| >= 2 && var t, just := Finished(s), Top(s.work);
            var B, p := t.blocks, Top(t.work);
            (forall c :: 2 <= c < |B| && B[c].parent == p ==> B[c].end != 0) &&
            B[p].end == 0 && (p >= 2 ==> B[p].start < t.pc) &&
            B[p].child != [] && Top(B[p].child) == just < |B| && B[just].kind == IfBlock
  {
    assert s.Valid() && s.work[0] == FUNCTION && s.blocks[FUNCTION].kind == FuncBlock;
    var m := |ks| - 1;
    assert s.blocks[s.work[m]].kind == ks[m];
    EndedShape(s, ks);
    LastChild(s, m - 1);
    WorkAscends(s, m - 1, m);
    var t, just := Finished(s), s.work[m];
    var p := t.work[m - 1];
    forall c | 2 <= c < |t.blocks| && t.blocks[c].parent == p ensures t.blocks[c].end != 0 {
      OpenChild(t, m - 1, c);
    }
    assert IsOpen(t, p) && PastAt(t.blocks, p, t.pc, just);
  }

  /** The if is ended and its else opened. */
  lemma ElseShape(s: Scan, ks: seq<Kind>)
    requires Shape(s, 0) && Kinds(s, ks) && ks != [] && ks[|ks| - 1] == IfBlock
    ensures s.Valid() && s.work != [] && var t := Finished(s);
            var u := Created(t, ElseBlock).(pc := s.pc + 1);
            Shape(u, 0) && Kinds(u, ks[..|ks| - 1] + [ElseBlock]) && |u.blocks| == |s.blocks| + 1
  {
    assert s.Valid();
    hide Shape;
    var m := |ks| - 1;
    ReadyForElse(s, ks);
    EndedShape(s, ks);
    var t := Finished(s);
    CreatedShape(t, ElseBlock, Top(s.work));
    var u := Created(t, ElseBlock);
    forall j | 0 <= j < m + 1 ensures u.work[j] < |u.blocks| && u.blocks[u.work[j]].kind == (ks[..m] + [ElseBlock])[j] {
      if j < m {
        assert t.blocks[t.work[j]].kind == ks[..m][j];
      }
    }
  }

  predicate Opens(op: Op) {
    op != End && op != Other
  }

  function OpenedKind(op: Op): (kind: Kind)
    requires Opens(op)
  {
    match op
    case If => IfBlock
    case Block => BlockBlock
    case Loop => LoopBlock
    case Else => ElseBlock
  }

  /** How many blocks the first k instructions open. */
  function Openers(ins: seq<Op>, k: nat): nat
    requires k <= |ins|
    decreases k
  {
    if k == 0 then 0 else Openers(ins, k - 1) + if Opens(ins[k - 1]) then 1 else 0
  }

  lemma StepShape(s: Scan, ks: seq<Kind>, op: Op)
    requires Shape(s, 0) && Kinds(s, ks) && Nested(ks, op).Some?
    ensures s.Valid() && Stepped(s, op).Ok?
    ensures var t := Stepped(s, op).value;
            Shape(t, 0) && Kinds(t, Nested(ks, op).kinds) && t.pc == s.pc + 1 &&
            |t.blocks| == |s.blocks| + if op == End || op == Other then 0 else 1
  {
    WorkOfKinds(s, ks);
    hide Shape, Kinds;
    match op {
      case If => OpenedShape(s, IfBlock, ks);
      case Block => OpenedShape(s, BlockBlock, ks);
      case Loop => OpenedShape(s, LoopBlock, ks);
      case Else => ElseShape(s, ks);
      case End => EndedShape(s, ks);
      case Other => NextShape(s);
    }
  }

  /** The scan of a list that is balanced so far. */
  lemma {:induction false} ScanShape(ins: seq<Op>, k: nat)
    requires k <= |ins| && NestAt(ins, k).Some?
    ensures ScanAt(ins, k).Ok?
    ensures var s := ScanAt(ins, k).value;
            Shape(s, 0) && s.pc == k + 1 && Kinds(s, NestAt(ins, k).kinds) && |s.blocks| == 2 + Openers(ins, k)
    decreases k
  {
    hide Shape, Kinds, Stepped, Nested;
    if k == 0 {
      StartShape();
    } else {
      ScanShape(ins, k - 1);
      StepShape(ScanAt(ins, k - 1).value, NestAt(ins, k - 1).kinds, ins[k - 1]);
    }
  }

  lemma WorkOfKinds(s: Scan, ks: seq<Kind>)
    requires Shape(s, 0) && Kinds(s, ks)
    ensures s.Valid() && |s.work| == |ks|
    ensures ks != [] ==> Top(s.work) < |s.blocks| && s.blocks[Top(s.work)].kind == ks[|ks| - 1]
  {
  }

  lemma NextShape(s: Scan)
    requires Shape(s, 0)
    ensures Shape(s.(pc := s.pc + 1), 0)
    ensures forall ks :: Kinds(s, ks) ==> Kinds(s.(pc := s.pc + 1), ks)
  {
    var t := s.(pc := s.pc + 1);
    forall j | 0 < j < |t.work| ensures Follows(t, j) {
      assert Follows(s, j);
    }
    forall i | 0 <= i < |t.blocks| ensures (i >= 1 ==> IsOpen(t, i)) && PastAt(t.blocks, i, t.pc, 0) {
      assert PastAt(s.blocks, i, s.pc, 0) && (i >= 1 ==> IsOpen(s, i));
    }
  }

  /** Instruction j opens block i. */
  ghost predicate OpenedBy(ins: seq<Op>, B: Blocks, i: nat, j: nat) {
    i < |B| && j < |ins| && Opens(ins[j]) && i == 2 + Openers(ins, j) && B[i].start == j + 1 &&
    B[i].kind == OpenedKind(ins[j])
  }

  /** The kind of the block tells the instruction. */
  lemma KindOpened(ins: seq<Op>, B: Blocks, i: nat, j: nat)
    requires OpenedBy(ins, B, i, j)
    ensures (ins[j] == If <==> B[i].kind == IfBlock) && (ins[j] == Block <==> B[i].kind == BlockBlock)
    ensures (ins[j] == Loop <==> B[i].kind == LoopBlock) && (ins[j] == Else <==> B[i].kind == ElseBlock)
  {
  }

  /** Block i was opened by the instruction it starts at, one of the first k. */
  ghost predicate BlockOpened(ins: seq<Op>, B: Blocks, i: nat, k: nat) {
    i < |B| && 1 <= B[i].start <= k && OpenedBy(ins, B, i, B[i].start - 1)
  }

  /** If instruction j opens a block, there is that block. */
  ghost predicate OpenerServed(ins: seq<Op>, B: Blocks, j: nat) {
    j < |ins| && (Opens(ins[j]) ==> OpenedBy(ins, B, 2 + Openers(ins, j), j))
  }

  /** The blocks but the first two are those that the first k instructions open. */
  ghost predicate AllOpened(ins: seq<Op>, B: Blocks, k: nat) {
    (forall i :: 2 <= i < |B| ==> BlockOpened(ins, B, i, k)) && forall j :: 0 <= j < k ==> OpenerServed(ins, B, j)
  }

  /** One instruction leaves the starts and kinds of the blocks, and adds a block if it opens one. */
  lemma StepBlocks(s: Scan, op: Op)
    requires s.Valid() && s.work != [] && Stepped(s, op).Ok?
    ensures var B, C := s.blocks, Stepped(s, op).value.blocks;
            |C| == |B| + (if Opens(op) then 1 else 0) &&
            (forall i :: 0 <= i < |B| ==> SameStart(B, C, i)) &&
            (Opens(op) ==> C[|B|].kind == OpenedKind(op) && C[|B|].start == s.pc)
  {
  }

  lemma {:induction false} BlocksOpened(ins: seq<Op>, k: nat)
    requires k <= |ins| && NestAt(ins, k).Some?
    ensures ScanAt(ins, k).Ok? && AllOpened(ins, ScanAt(ins, k).value.blocks, k)
    decreases k
  {
    hide Shape, Kinds, Stepped, Nested;
    ScanShape(ins, k);
    if k > 0 {
      BlocksOpened(ins, k - 1);
      ScanShape(ins, k - 1);
      var s := ScanAt(ins, k - 1).value;
      WorkOfKinds(s, NestAt(ins, k - 1).kinds);
      NestedOpen(NestAt(ins, k - 1).kinds, ins[k - 1]);
      StepBlocks(s, ins[k - 1]);
      hide ScanAt, NestAt, Opens, AllOpened;
      NextOpened(ins, s.blocks, Stepped(s, ins[k - 1]).value.blocks, k - 1);
    }
  }

  lemma NestedOpen(ks: seq<Kind>, op: Op)
    requires Nested(ks, op).Some?
    ensures ks != []
  {
  }

  lemma BlockStays(ins: seq<Op>, B: Blocks, C: Blocks, i: nat, j: nat)
    requires OpenedBy(ins, B, i, j) && i < |C| && C[i].kind == B[i].kind && C[i].start == B[i].start
    ensures OpenedBy(ins, C, i, j)
  {
    hide Opens, Openers, OpenedKind;
  }

  ghost predicate SameStart(B: Blocks, C: Blocks, i: nat) {
    i < |B| && i < |C| && C[i].kind == B[i].kind && C[i].start == B[i].start
  }

  lemma BlockKept(ins: seq<Op>, B: Blocks, C: Blocks, i: nat, k: nat)
    requires BlockOpened(ins, B, i, k) && SameStart(B, C, i)
    ensures BlockOpened(ins, C, i, k + 1)
  {
    BlockStays(ins, B, C, i, B[i].start - 1);
  }

  lemma ServedKept(ins: seq<Op>, B: Blocks, C: Blocks, j: nat)
    requires OpenerServed(ins, B, j) && forall i :: 0 <= i < |B| ==> SameStart(B, C, i)
    ensures OpenerServed(ins, C, j)
  {
    hide Opens, OpenedKind, Openers;
    if Opens(ins[j]) {
      var i := 2 + Openers(ins, j);
      assert OpenedBy(ins, B, i, j) && SameStart(B, C, i);
    }
  }

  lemma LastServed(ins: seq<Op>, C: Blocks, k: nat)
    requires k < |ins| && |C| == 2 + Openers(ins, k) + (if Opens(ins[k]) then 1 else 0)
    requires Opens(ins[k]) ==> C[|C| - 1].kind == OpenedKind(ins[k]) && C[|C| - 1].start == k + 1
    ensures OpenerServed(ins, C, k) && (Opens(ins[k]) ==> BlockOpened(ins, C, |C| - 1, k + 1))
  {
    hide Opens, Openers, OpenedKind;
  }

  lemma NextOpened(ins: seq<Op>, B: Blocks, C: Blocks, k: nat)
    requires k < |ins| && AllOpened(ins, B, k) && |B| == 2 + Openers(ins, k) &&
             |C| == |B| + (if Opens(ins[k]) then 1 else 0)
    requires forall i :: 0 <= i < |B| ==> SameStart(B, C, i)
    requires Opens(ins[k]) ==> C[|B|].kind == OpenedKind(ins[k]) && C[|B|].start == k + 1
    ensures AllOpened(ins, C, k + 1)
  {
    hide Opens, Openers, OpenedKind, BlockOpened, OpenerServed, SameStart;
    var next := k + 1;
    LastServed(ins, C, k);
    forall i | 2 <= i < |C| ensures BlockOpened(ins, C, i, next) {
      if i < |B| {
        BlockKept(ins, B, C, i, k);
      }
    }
    forall j | 0 <= j < next ensures OpenerServed(ins, C, j) {
      if j < k {
        ServedKept(ins, B, C, j);
      }
    }
  }

  /** No two blocks start at one instruction. */
  lemma OneBlockEach(ins: seq<Op>, B: Blocks, k: nat, i: nat, i': nat)
    requires AllOpened(ins, B, k) && 2 <= i < |B| && 2 <= i' < |B| && B[i].start == B[i'].start
    ensures i == i'
  {
    hide Opens, Openers, OpenedKind;
    assert BlockOpened(ins, B, i, k) && BlockOpened(ins, B, i', k);
  }

  /**
   * The hierarchy of a balanced list: every block is closed, parents come before children and hold
   * them, siblings follow one another, and each block, loop, if and else opened one block of its
   * kind, which starts there; besides them there are the function and the placeholder.
   */
  lemma TreeShape(ins: seq<Op>)
    requires Balanced(ins)
    ensures ScanAt(ins, |ins|).Ok?
    ensures var s := ScanAt(ins, |ins|).value;
            var B := s.blocks;
            Numbered(B) && Inside(B) && Ordered(B) && s.work == [] && |B| == 2 + Openers(ins, |ins|) &&
            (forall i :: 1 <= i < |B| ==> 0 < B[i].end <= |ins|) && AllOpened(ins, B, |ins|)
  {
    hide AllOpened;
    ScanShape(ins, |ins|);
    BlocksOpened(ins, |ins|);
    var s := ScanAt(ins, |ins|).value;
    forall i | 1 <= i < |s.blocks| ensures 0 < s.blocks[i].end <= |ins| {
      assert IsOpen(s, i) && PastAt(s.blocks, i, s.pc, 0);
    }
  }

  // ---------------------------------------------------------------- lists that are not balanced

  /** The kinds of the blocks open before instruction k of any list. */
  function OpenKinds(ins: seq<Op>, k: nat): Nest
    requires k <= |ins|
    decreases k
  {
    if k == 0 then Some([FuncBlock]) else
    match OpenKinds(ins, k - 1)
    case None => None
    case Some(ks) =>
      var op := ins[k - 1];
      if ks != [] then Nested(ks, op)
      else if op == Else then None
      else if Opens(op) then Some([OpenedKind(op)])
      else Some([])
  }

  /** An else whose innermost open block is no if. */
  ghost predicate StrayElse(ins: seq<Op>, j: nat) {
    j < |ins| && ins[j] == Else && OpenKinds(ins, j).Some? &&
    var ks := OpenKinds(ins, j).kinds;
    ks == [] || ks[|ks| - 1] != IfBlock
  }

  /** The ends after everything is closed, which the pc does not count. */
  function SkippedEnds(ins: seq<Op>, k: nat): nat
    requires k <= |ins|
    decreases k
  {
    if k == 0 then 0 else
    SkippedEnds(ins, k - 1) + if ins[k - 1] == End && OpenKinds(ins, k - 1) == Some([]) then 1 else 0
  }

  lemma CreatedKinds(s: Scan, ks: seq<Kind>, kind: Kind)
    requires s.Valid() && Kinds(s, ks)
    ensures Created(s, kind).pc == s.pc && Kinds(Created(s, kind), ks + [kind])
  {
    var t := Created(s, kind);
    forall j | 0 <= j < |ks| + 1 ensures t.work[j] < |t.blocks| && t.blocks[t.work[j]].kind == (ks + [kind])[j] {
      if j < |ks| {
        assert s.blocks[s.work[j]].kind == ks[j];
      }
    }
  }

  lemma FinishedKinds(s: Scan, ks: seq<Kind>)
    requires s.Valid() && Kinds(s, ks) && ks != []
    ensures s.work != [] && Finished(s).pc == s.pc && Kinds(Finished(s), ks[..|ks| - 1])
    ensures Top(s.work) < |s.blocks| && s.blocks[Top(s.work)].kind == ks[|ks| - 1]
  {
    var t := Finished(s);
    forall j | 0 <= j < |ks| - 1 ensures t.work[j] < |t.blocks| && t.blocks[t.work[j]].kind == ks[j] {
      assert s.blocks[s.work[j]].kind == ks[j];
    }
  }

  lemma KindsLater(s: Scan, ks: seq<Kind>, pc: nat)
    requires Kinds(s, ks)
    ensures |s.work| == |ks| && Kinds(s.(pc := pc), ks)
  {
  }

  lemma StepKinds(s: Scan, ks: seq<Kind>, op: Op)
    requires s.Valid() && Kinds(s, ks)
    ensures var r := Stepped(s, op);
            if op == Else && (ks == [] || ks[|ks| - 1] != IfBlock) then r.Error?
            else r.Ok? && r.value.pc == s.pc + (if op == End && ks == [] then 0 else 1) &&
                 Kinds(r.value, if ks != [] then Nested(ks, op).kinds else if Opens(op) then [OpenedKind(op)] else [])
  {
    hide Kinds, Created, Finished;
    KindsLater(s, ks, s.pc + 1);
    if ks != [] {
      FinishedKinds(s, ks);
      KindsLater(Finished(s), ks[..|ks| - 1], s.pc + 1);
    }
    if op == Else && ks != [] {
      CreatedKinds(Finished(s), ks[..|ks| - 1], ElseBlock);
      KindsLater(Created(Finished(s), ElseBlock), ks[..|ks| - 1] + [ElseBlock], s.pc + 1);
    } else if Opens(op) {
      CreatedKinds(s, ks, OpenedKind(op));
      KindsLater(Created(s, OpenedKind(op)), ks + [OpenedKind(op)], s.pc + 1);
    }
    assert ks == [] && Opens(op) ==> ks + [OpenedKind(op)] == [OpenedKind(op)];
  }

  lemma NextKinds(ins: seq<Op>, k: nat)
    requires 0 < k <= |ins| && OpenKinds(ins, k - 1).Some?
    ensures var ks, op := OpenKinds(ins, k - 1).kinds, ins[k - 1];
            (StrayElse(ins, k - 1) <==> op == Else && (ks == [] || ks[|ks| - 1] != IfBlock)) &&
            (OpenKinds(ins, k).None? <==> StrayElse(ins, k - 1)) &&
            (!StrayElse(ins, k - 1) ==>
              OpenKinds(ins, k).kinds ==
              if ks != [] then Nested(ks, op).kinds else if Opens(op) then [OpenedKind(op)] else [])
  {
    hide OpenedKind;
  }

  lemma {:induction false} ScanKinds(ins: seq<Op>, k: nat)
    requires k <= |ins|
    ensures ScanAt(ins, k).Ok? <==> OpenKinds(ins, k).Some?
    ensures ScanAt(ins, k).Ok? ==>
              Kinds(ScanAt(ins, k).value, OpenKinds(ins, k).kinds) &&
              ScanAt(ins, k).value.pc == k + 1 - SkippedEnds(ins, k)
    decreases k
  {
    hide Kinds, Stepped, Shape, Opens, OpenedKind, Nested, StrayElse;
    if k == 0 {
      StartShape();
    } else {
      ScanKinds(ins, k - 1);
      if ScanAt(ins, k - 1).Ok? {
        StepKinds(ScanAt(ins, k - 1).value, OpenKinds(ins, k - 1).kinds, ins[k - 1]);
        NextKinds(ins, k);
      }
    }
  }

  lemma {:induction false} NoneAtStrayElse(ins: seq<Op>, k: nat)
    requires k <= |ins|
    ensures OpenKinds(ins, k).None? <==> exists j :: 0 <= j < k && StrayElse(ins, j)
    decreases k
  {
    hide StrayElse, Nested, Opens, OpenedKind;
    if k > 0 {
      NoneAtStrayElse(ins, k - 1);
      if OpenKinds(ins, k - 1).Some? {
        NextKinds(ins, k);
      }
    }
  }

  /** The scan of any list fails exactly when some else is stray; and it counts every instruction but skipped ends. */
  lemma FailsAtStrayElse(ins: seq<Op>, k: nat)
    requires k <= |ins|
    ensures ScanAt(ins, k).Error? <==> exists j :: 0 <= j < k && StrayElse(ins, j)
    ensures ScanAt(ins, k).Ok? ==>
              OpenKinds(ins, k).Some? && Kinds(ScanAt(ins, k).value, OpenKinds(ins, k).kinds) &&
              ScanAt(ins, k).value.pc == k + 1 - SkippedEnds(ins, k)
  {
    hide Kinds, ScanAt, OpenKinds, StrayElse;
    ScanKinds(ins, k);
    NoneAtStrayElse(ins, k);
  }

  /** LABEL_TAB: a pc and the block it was made for. */
  class LabelTab {
    var labels: seq<(nat, nat)>

    constructor ()
      ensures labels == []
    {
      labels := [];
    }

    method Add(pc: nat, sym: nat) returns (cur: nat)
      modifies this
      ensures cur == |old(labels)| && labels == old(labels) + [(pc, sym)]
    {
      cur := |labels|;
      labels := labels + [(pc, sym)];
    }
  }

  /** The block vector and the work stack of Build_block_hierarchy. */
  class Hierarchy {
    var blocks: Blocks
    var work: seq<nat>

    constructor ()
      ensures State(1) == Scan([Blk(NoBlock, 0, [], 0, 0)], [], 1)
    {
      blocks, work := [Blk(NoBlock, 0, [], 0, 0)], [];
    }

    ghost function State(pc: nat): Scan
      reads this
    {
      Scan(blocks, work, pc)
    }

    method CreateNewBlock(insCnt: nat, kind: Kind) returns (id: nat)
      requires State(insCnt).Valid()
      modifies this
      ensures State(insCnt) == Created(old(State(insCnt)), kind) && id == |old(blocks)|
    {
      var parent := 0;
      id := |blocks|;
      if work != [] {
        parent := work[|work| - 1];
        var b := blocks[parent];
        blocks := blocks[parent := b.(child := b.child + [id])];
      }
      blocks := blocks + [Blk(kind, parent, [], insCnt, 0)];
      work := work + [id];
    }

    method FinishOldBlock(pc: nat) returns (tos: nat)
      requires State(pc).Valid() && work != []
      modifies this
      ensures State(pc) == Finished(old(State(pc))) && tos == Top(old(work))
    {
      tos := work[|work| - 1];
      work := work[..|work| - 1];
      blocks := blocks[tos := blocks[tos].(end := pc)];
    }

    /** One turn of the scan's loop; false where an assertion of the source fails. */
    method ScanInstruction(op: Op, insCnt: nat) returns (ok: bool)
      requires State(insCnt).Valid() && (op == End ==> work != [])
      modifies this
      ensures match Stepped(old(State(insCnt)), op)
              case Ok(t) => ok && State(insCnt + 1) == t
              case Error => !ok
    {
      ok := true;
      if op == If {
        var id := CreateNewBlock(insCnt, IfBlock);
      } else if op == Block {
        var id := CreateNewBlock(insCnt, BlockBlock);
      } else if op == Loop {
        var id := CreateNewBlock(insCnt, LoopBlock);
      } else if op == Else {
        if work == [] {
          return false;
        }
        var old_ := FinishOldBlock(insCnt);
        var else_ := CreateNewBlock(insCnt, ElseBlock);
        ok := blocks[old_].kind == IfBlock;
      } else if op == End {
        var id := FinishOldBlock(insCnt);
      }
    }
  }

  lemma SkipsEnd(s: Scan)
    requires s.Valid() && s.work == []
    ensures Stepped(s, End) == Ok(s)
  {
  }

  lemma {:induction false} StaysFailed(ins: seq<Op>, k: nat, m: nat)
    requires k <= m <= |ins| && ScanAt(ins, k).Error?
    ensures ScanAt(ins, m).Error?
    decreases m - k
  {
    if k < m {
      StaysFailed(ins, k + 1, m);
    }
  }

  /** Error where the source's assertions fail; labels gets the placeholder. */
  method BuildBlockHierarchy(ins: seq<Op>, labels: LabelTab) returns (r: Result<Blocks>)
    modifies labels
    ensures labels.labels == old(labels.labels) + [(0, 0)]
    ensures match ScanAt(ins, |ins|) case Ok(s) => r == Ok(s.blocks) case Error => r.Error?
  {
    var h := new Hierarchy();
    var insCnt := 1;
    var placeholder := labels.Add(0, 0);
    var root := h.CreateNewBlock(insCnt, FuncBlock);
    assert ScanAt(ins, 0) == Ok(h.State(insCnt));
    hide Stepped, Created, Finished, Start;
    for i := 0 to |ins|
      invariant fresh(h) && h.State(insCnt).Valid() && ScanAt(ins, i) == Ok(h.State(insCnt))
      invariant labels.labels == old(labels.labels) + [(0, 0)]
    {
      if ins[i] == End && h.work == [] {
        SkipsEnd(h.State(insCnt));
        continue;
      }
      var ok := h.ScanInstruction(ins[i], insCnt);
      if !ok {
        StaysFailed(ins, i + 1, |ins|);
        return Error;
      }
      insCnt := insCnt + 1;
    }
    r := Ok(h.blocks);
  }
}
