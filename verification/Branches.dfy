/**
 * Get_label_index_for_branch of convertor.cpp: a search of the block tree by pc, then br_cnt steps up.
 * It finds the blocks that were open when the branch was scanned.
 */
module Branches {
  import opened Common
  import opened BlockTree

  const LABEL_INVALID := 0
  const LABEL_NOT_NEEDED := 0xFFFF_FFFF

  datatype Answer = Invalid | NotNeeded | NewLabel(pc: nat, sym: nat) | Abort

  /** n steps to the parent; the function has none. */
  datatype Ancestor = NoAncestor | Ancestor(id: nat)

  function Climb(B: Blocks, cur: nat, n: nat): Ancestor
    decreases n
  {
    if n == 0 then Ancestor(cur)
    else if cur >= |B| || B[cur].parent == 0 then NoAncestor
    else Climb(B, B[cur].parent, n - 1)
  }

  /** Where a jump to a block goes: after its first instruction for a loop, after its last for the rest. */
  function Target(b: Blk): nat {
    if b.kind == LoopBlock then b.start + 1 else b.end + 1
  }

  /** The search below block cur for the label of the instruction at pc, which leaves n blocks. */
  function Resolve(pc: nat, cur: nat, B: Blocks, n: nat): Answer
    requires Numbered(B) && cur < |B|
    decreases |B| - cur, |B[cur].child| + 1
  {
    var b := B[cur];
    if cur == LABEL_INVALID then Invalid
    else if cur == LABEL_NOT_NEEDED then NotNeeded
    else if b.start == 0 || b.end == 0 then Abort
    else if pc < b.start || pc > b.end then Invalid
    else if pc == b.start && b.kind != FuncBlock then
      match b.kind
      case IfBlock => NewLabel(b.end + 1, cur)
      case LoopBlock => NotNeeded
      case ElseBlock => NewLabel(b.end + 1, cur)
      case _ => Abort
    else if pc == b.end then
      if b.kind == NoBlock then Abort else NotNeeded
    else
      var found := FirstFound(pc, cur, 0, B, n);
      if found != Invalid then found else
      match Climb(B, cur, n)
      case NoAncestor => Abort
      case Ancestor(t) => if t < |B| then NewLabel(Target(B[t]), cur) else Abort
  }

  /** The first answer among the children from x on. */
  function FirstFound(pc: nat, p: nat, x: nat, B: Blocks, n: nat): Answer
    requires Numbered(B) && p < |B| && x <= |B[p].child|
    decreases |B| - p, |B[p].child| - x
  {
    if x == |B[p].child| then Invalid else
    assert HasChild(B, p, x);
    var found := Resolve(pc, B[p].child[x], B, n);
    if found != Invalid then found else FirstFound(pc, p, x + 1, B, n)
  }

  lemma ParentBefore(B: Blocks, c: nat)
    requires Numbered(B) && 1 <= c < |B|
    ensures B[c].parent < c
  {
    assert c >= 2 ==> HasParent(B, c);
  }

  /** Adds the label found and returns its index; Error where an assertion of the source fails. */
  method GetLabelIndexForBranch(insCnt: nat, current: nat, blkVec: Blocks, brCnt: nat, labels: LabelTab)
    returns (r: Result<nat>)
    requires Numbered(blkVec) && current < |blkVec| && labels.labels != []
    modifies labels
    ensures match Resolve(insCnt, current, blkVec, brCnt)
            case Invalid => r == Ok(LABEL_INVALID) && labels.labels == old(labels.labels)
            case NotNeeded => r == Ok(LABEL_NOT_NEEDED) && labels.labels == old(labels.labels)
            case NewLabel(pc, sym) =>
              r == Ok(|old(labels.labels)|) && labels.labels == old(labels.labels) + [(pc, sym)]
            case Abort => r.Error? && labels.labels == old(labels.labels)
    decreases |blkVec| - current
  {
    if current == LABEL_INVALID || current == LABEL_NOT_NEEDED {
      return Ok(current);
    }
    var blk := blkVec[current];
    if blk.start == 0 || blk.end == 0 {
      return Error;
    }
    if insCnt < blk.start || insCnt > blk.end {
      return Ok(LABEL_INVALID);
    }
    if insCnt == blk.start && blk.kind != FuncBlock {
      if blk.kind == IfBlock {
        var label_ := labels.Add(blk.end + 1, current);
        return Ok(label_);
      } else if blk.kind == LoopBlock {
        return Ok(LABEL_NOT_NEEDED);
      } else if blk.kind == ElseBlock {
        var label_ := labels.Add(blk.end + 1, current);
        return Ok(label_);
      } else {
        return Error;
      }
    }
    if insCnt == blk.end {
      return if blk.kind != NoBlock then Ok(LABEL_NOT_NEEDED) else Error;
    }
    for x := 0 to |blk.child|
      invariant labels.labels == old(labels.labels)
      invariant FirstFound(insCnt, current, 0, blkVec, brCnt) == FirstFound(insCnt, current, x, blkVec, brCnt)
    {
      assert HasChild(blkVec, current, x);
      var found := GetLabelIndexForBranch(insCnt, blk.child[x], blkVec, brCnt, labels);
      if found != Ok(LABEL_INVALID) {
        return found;
      }
    }
    var cur := current;
    for i := 0 to brCnt
      invariant 1 <= cur < |blkVec| && Climb(blkVec, current, brCnt) == Climb(blkVec, cur, brCnt - i)
      modifies {}
    {
      var parent := blkVec[cur].parent;
      if parent == 0 {
        return Error;
      }
      ParentBefore(blkVec, cur);
      cur := parent;
    }
    if blkVec[cur].kind == LoopBlock {
      var label_ := labels.Add(blkVec[cur].start + 1, current);
      return Ok(label_);
    }
    var label_ := labels.Add(blkVec[cur].end + 1, current);
    r := Ok(label_);
  }

  /** Block i of B as it is in C, where the scan of the instructions from pc on has made and ended blocks. */
  ghost predicate Kept(B: Blocks, C: Blocks, i: nat, pc: nat) {
    i < |B| <= |C| && C[i].kind == B[i].kind && C[i].parent == B[i].parent && C[i].start == B[i].start &&
    (if B[i].end != 0 then C[i].end == B[i].end else C[i].end == 0 || C[i].end > pc) &&
    |B[i].child| <= |C[i].child| && (forall x :: 0 <= x < |B[i].child| ==> C[i].child[x] == B[i].child[x]) &&
    forall x :: |B[i].child| <= x < |C[i].child| ==> C[i].child[x] >= |B|
  }

  ghost predicate New(C: Blocks, i: nat, pc: nat) {
    i < |C| && C[i].start > pc
  }

  ghost predicate Later(B: Blocks, C: Blocks, pc: nat) {
    |B| <= |C| && (forall i :: 0 <= i < |B| ==> Kept(B, C, i, pc)) && forall i :: |B| <= i < |C| ==> New(C, i, pc)
  }

  lemma LaterRefl(B: Blocks, pc: nat)
    ensures Later(B, B, pc)
  {
  }

  lemma LaterCreated(B: Blocks, s: Scan, kind: Kind, pc: nat)
    requires Later(B, s.blocks, pc) && s.Valid() && s.work != [] && s.pc > pc
    ensures Later(B, Created(s, kind).blocks, pc)
  {
    var C := Created(s, kind).blocks;
    forall i | 0 <= i < |B| ensures Kept(B, C, i, pc) {
      assert Kept(B, s.blocks, i, pc);
    }
    forall i | |B| <= i < |C| ensures New(C, i, pc) {
      assert i < |s.blocks| ==> New(s.blocks, i, pc);
    }
  }

  lemma LaterFinished(B: Blocks, s: Scan, pc: nat)
    requires Later(B, s.blocks, pc) && s.Valid() && s.work != [] && s.pc > pc && s.blocks[Top(s.work)].end == 0
    ensures Later(B, Finished(s).blocks, pc)
  {
    var C := Finished(s).blocks;
    forall i | 0 <= i < |B| ensures Kept(B, C, i, pc) {
      assert Kept(B, s.blocks, i, pc);
    }
    forall i | |B| <= i < |C| ensures New(C, i, pc) {
      assert New(s.blocks, i, pc);
    }
  }

  lemma LaterStep(B: Blocks, s: Scan, ks: seq<Kind>, op: Op, pc: nat)
    requires Later(B, s.blocks, pc) && Shape(s, 0) && Kinds(s, ks) && Nested(ks, op).Some? && s.pc > pc
    ensures s.Valid() && Stepped(s, op).Ok? && Later(B, Stepped(s, op).value.blocks, pc)
  {
    StepShape(s, ks, op);
    WorkOfKinds(s, ks);
    assert Shape(s, 0) && ks != [];
    TopChildrenOver(s);
    if op == Else {
      ReadyForElse(s, ks);
    }
    hide Shape, Kinds, Later;
    match op {
      case If => LaterCreated(B, s, IfBlock, pc);
      case Block => LaterCreated(B, s, BlockBlock, pc);
      case Loop => LaterCreated(B, s, LoopBlock, pc);
      case Else =>
        LaterFinished(B, s, pc);
        LaterCreated(B, Finished(s), ElseBlock, pc);
      case End => LaterFinished(B, s, pc);
      case Other =>
    }
  }

  lemma ScanNext(ins: seq<Op>, m: nat)
    requires 0 < m <= |ins| && NestAt(ins, m).Some?
    ensures NestAt(ins, m - 1).Some? && NestAt(ins, m) == Nested(NestAt(ins, m - 1).kinds, ins[m - 1])
    ensures ScanAt(ins, m - 1).Ok? ==> ScanAt(ins, m) == Stepped(ScanAt(ins, m - 1).value, ins[m - 1])
    ensures ScanAt(ins, m - 1).Ok? && ins[m - 1] == Other && ScanAt(ins, m).Ok? ==>
              ScanAt(ins, m).value.blocks == ScanAt(ins, m - 1).value.blocks
  {
  }

  /** What the scan from instruction k on leaves of the blocks made before. */
  lemma {:induction false} LaterAt(ins: seq<Op>, k: nat, m: nat)
    requires k <= m <= |ins| && NestAt(ins, m).Some?
    ensures ScanAt(ins, k).Ok? && ScanAt(ins, m).Ok?
    ensures Later(ScanAt(ins, k).value.blocks, ScanAt(ins, m).value.blocks, k)
    decreases m
  {
    hide Shape, Kinds, Later, Nested, Stepped, ScanAt, NestAt;
    ScanShape(ins, m);
    if k == m {
      LaterRefl(ScanAt(ins, k).value.blocks, k);
    } else {
      ScanNext(ins, m);
      ScanShape(ins, m - 1);
      LaterAt(ins, k, m - 1);
      LaterStep(ScanAt(ins, k).value.blocks, ScanAt(ins, m - 1).value, NestAt(ins, m - 1).kinds, ins[m - 1], k);
    }
  }

  /** A branch at pc, scanned in state s, is resolved in the finished hierarchy C. */
  ghost predicate Scene(s: Scan, C: Blocks) {
    Shape(s, 0) && s.work != [] && Numbered(C) && Later(s.blocks, C, s.pc) && |C| <= LABEL_NOT_NEEDED &&
    forall i :: 1 <= i < |C| ==> C[i].end != 0
  }

  /** A block that was open at the branch has it inside. */
  lemma OnPath(s: Scan, C: Blocks, j: nat)
    requires Scene(s, C) && j < |s.work|
    ensures var b := s.work[j];
            0 < b < |s.blocks| <= |C| && b < LABEL_NOT_NEEDED && C[b].end > s.pc &&
            0 < C[b].start && (C[b].start < s.pc || (C[b].kind == FuncBlock && C[b].start == s.pc))
  {
    var b := s.work[j];
    assert Kept(s.blocks, C, b, s.pc) && IsOpen(s, b) && PastAt(s.blocks, b, s.pc, 0);
  }

  /** A child that was not open at the branch does not hold it. */
  lemma Elsewhere(s: Scan, C: Blocks, j: nat, d: nat, n: nat)
    requires Scene(s, C) && j < |s.work| && 2 <= d < |C| && C[d].parent == s.work[j]
    requires j + 1 < |s.work| ==> s.work[j + 1] != d
    ensures Resolve(s.pc, d, C, n) == Invalid
  {
    hide Numbered;
    if d < |s.blocks| {
      assert Kept(s.blocks, C, d, s.pc) && PastAt(s.blocks, d, s.pc, 0);
      OpenChild(s, j, d);
    } else {
      assert New(C, d, s.pc);
    }
  }

  lemma {:induction false} NoneFound(s: Scan, C: Blocks, x: nat, n: nat)
    requires Scene(s, C) && Top(s.work) < |C| && x <= |C[Top(s.work)].child|
    ensures FirstFound(s.pc, Top(s.work), x, C, n) == Invalid
    decreases |C[Top(s.work)].child| - x
  {
    hide Numbered, Shape, Later;
    var p := Top(s.work);
    if x < |C[p].child| {
      OnPath(s, C, |s.work| - 1);
      ChildOf(C, p, x);
      Elsewhere(s, C, |s.work| - 1, C[p].child[x], n);
      NoneFound(s, C, x + 1, n);
    }
  }

  lemma ChildOf(C: Blocks, p: nat, x: nat)
    requires Numbered(C) && 0 < p < |C| && x < |C[p].child|
    ensures p < C[p].child[x] < |C| && 2 <= C[p].child[x] && C[C[p].child[x]].parent == p
  {
    assert HasChild(C, p, x);
  }

  /** The search takes the child that was open. */
  lemma {:induction false} FoundAbove(s: Scan, C: Blocks, j: nat, x: nat, y: nat, n: nat)
    requires Scene(s, C) && j + 1 < |s.work| && 0 < s.work[j] < |C| && x <= y < |C[s.work[j]].child|
    requires C[s.work[j]].child[y] == s.work[j + 1] < |C| && Resolve(s.pc, s.work[j + 1], C, n) != Invalid
    ensures FirstFound(s.pc, s.work[j], x, C, n) == Resolve(s.pc, s.work[j + 1], C, n)
    decreases y - x
  {
    hide Numbered, Shape, Later, Resolve;
    var p := s.work[j];
    if C[p].child[x] != s.work[j + 1] {
      ChildOf(C, p, x);
      Elsewhere(s, C, j, C[p].child[x], n);
      FoundAbove(s, C, j, x + 1, y, n);
    }
  }

  lemma ListsNext(s: Scan, C: Blocks, j: nat) returns (y: nat)
    requires Scene(s, C) && j + 1 < |s.work|
    ensures 0 < s.work[j] < |C| && y < |C[s.work[j]].child| && C[s.work[j]].child[y] == s.work[j + 1] < |C|
  {
    LastChild(s, j);
    var p := s.work[j];
    assert s.Valid() && s.work[j + 1] < |s.blocks| <= |C|;
    assert Kept(s.blocks, C, p, s.pc);
    y := |s.blocks[p].child| - 1;
  }

  /** What the search ends with. */
  function Found(C: Blocks, top: nat, a: Ancestor): Answer {
    match a
    case NoAncestor => Abort
    case Ancestor(t) => if t < |C| then NewLabel(Target(C[t]), top) else Abort
  }

  lemma {:induction false} ResolvePath(s: Scan, C: Blocks, j: nat, n: nat)
    requires Scene(s, C) && j < |s.work|
    ensures s.work[j] < |C| && Resolve(s.pc, s.work[j], C, n) == Found(C, Top(s.work), Climb(C, Top(s.work), n))
    decreases |s.work| - j
  {
    hide Numbered, Shape, Later, Climb;
    OnPath(s, C, j);
    if j == |s.work| - 1 {
      NoneFound(s, C, 0, n);
    } else {
      ResolvePath(s, C, j + 1, n);
      var y := ListsNext(s, C, j);
      FoundAbove(s, C, j, 0, y, n);
    }
  }

  lemma {:induction false} ClimbWork(s: Scan, C: Blocks, m: nat, n: nat)
    requires Scene(s, C) && m < |s.work|
    ensures Climb(C, s.work[m], n) == if n <= m then Ancestor(s.work[m - n]) else NoAncestor
    decreases n
  {
    var b := s.work[m];
    assert Kept(s.blocks, C, b, s.pc);
    if m > 0 {
      assert Follows(s, m);
      if n > 0 {
        ClimbWork(s, C, m - 1, n - 1);
      }
    }
  }

  /** The branch at instruction k, in the hierarchy of the whole list. */
  lemma SceneAt(ins: seq<Op>, k: nat)
    requires Balanced(ins) && k < |ins| && ins[k] == Other && |ins| < 0xFFFF_FFFE
    ensures ScanAt(ins, k).Ok? && ScanAt(ins, |ins|).Ok?
    ensures Scene(ScanAt(ins, k).value, ScanAt(ins, |ins|).value.blocks)
  {
    hide Shape, Kinds, Later, Numbered, ScanAt, NestAt;
    TreeShape(ins);
    BalancedBefore(ins, k, |ins|);
    if k + 1 < |ins| {
      BalancedBefore(ins, k + 1, |ins|);
    }
    ScanNext(ins, k + 1);
    LaterAt(ins, k + 1, |ins|);
    ScanShape(ins, k);
    WorkOfKinds(ScanAt(ins, k).value, NestAt(ins, k).kinds);
    FewOpeners(ins, |ins|);
  }

  lemma {:induction false} FewOpeners(ins: seq<Op>, k: nat)
    requires k <= |ins|
    ensures Openers(ins, k) <= k
    decreases k
  {
    if k > 0 {
      FewOpeners(ins, k - 1);
    }
  }

  /**
   * A branch out of n blocks resolves to the block that was n below the top of the work stack when the branch was
   * scanned; one label is made, and it names the innermost block. Out of more blocks than are open, an assertion fails.
   */
  lemma ResolvesToOpenBlock(ins: seq<Op>, k: nat, n: nat)
    requires Balanced(ins) && k < |ins| && ins[k] == Other && |ins| < 0xFFFF_FFFE
    ensures ScanAt(ins, k).Ok? && ScanAt(ins, |ins|).Ok?
    ensures var work, C := ScanAt(ins, k).value.work, ScanAt(ins, |ins|).value.blocks;
            Numbered(C) && FUNCTION < |C| && work != [] &&
            if n < |work| then
              work[|work| - 1 - n] < |C| &&
              Resolve(k + 1, FUNCTION, C, n) == NewLabel(Target(C[work[|work| - 1 - n]]), Top(work))
            else
              Resolve(k + 1, FUNCTION, C, n) == Abort
  {
    hide Shape, Kinds, Later, ScanAt, NestAt, Resolve;
    SceneAt(ins, k);
    var s, C := ScanAt(ins, k).value, ScanAt(ins, |ins|).value.blocks;
    BalancedBefore(ins, k, |ins|);
    ScanShape(ins, k);
    Bottom(s);
    ResolvePath(s, C, 0, n);
    ClimbWork(s, C, |s.work| - 1, n);
    if n < |s.work| {
      OnPath(s, C, |s.work| - 1 - n);
    }
  }

  lemma Bottom(s: Scan)
    requires Shape(s, 0) && s.work != []
    ensures s.work[0] == FUNCTION
  {
  }

  /** How many blocks are open before instruction k. */
  function Depth(ins: seq<Op>, k: nat): nat
    requires k <= |ins|
  {
    match NestAt(ins, k)
    case None => 0
    case Some(ks) => |ks|
  }

  /** Instruction j is the end that matches the construct whose first inner instruction is a. */
  ghost predicate IsMatchingEnd(ins: seq<Op>, a: nat, j: nat) {
    a <= j < |ins| && ins[j] == End && Depth(ins, j + 1) < Depth(ins, a) &&
    forall m :: a <= m <= j ==> Depth(ins, m) >= Depth(ins, a)
  }

  /** The construct whose first inner instruction is a, or the function at 0, is the one n out from instruction k: it
      is open from a to k, and n others are open inside it. An if counts on beyond its else. */
  ghost predicate Encloses(ins: seq<Op>, k: nat, n: nat, a: nat) {
    a <= k < |ins| && Depth(ins, a) + n == Depth(ins, k) &&
    (forall m :: a <= m <= k ==> Depth(ins, m) >= Depth(ins, a)) &&
    (a > 0 ==> Opens(ins[a - 1]))
  }

  /** Where a branch to that construct goes: to its first instruction for a loop, past its end for the rest. */
  ghost predicate GoesTo(ins: seq<Op>, a: nat, pc: nat) {
    a <= |ins| &&
    if a > 0 && ins[a - 1] == Loop then pc == a + 1
    else exists j: nat :: IsMatchingEnd(ins, a, j) && pc == j + 2
  }

  /** WebAssembly's target of a branch at instruction k out of n constructs. */
  ghost predicate IsWasmTarget(ins: seq<Op>, k: nat, n: nat, pc: nat) {
    exists a: nat :: Encloses(ins, k, n, a) && GoesTo(ins, a, pc)
  }

  /** The else of the if whose first inner instruction is a is instruction j, and k comes before it. */
  ghost predicate ElseAhead(ins: seq<Op>, k: nat, a: nat, j: nat) {
    0 < a <= k < j < |ins| && ins[a - 1] == If && ins[j] == Else && Depth(ins, j) == Depth(ins, a) &&
    forall m :: a <= m <= j ==> Depth(ins, m) >= Depth(ins, a)
  }

  /** The branch leaves the first arm of an if that has an else. */
  ghost predicate LeavesFirstArm(ins: seq<Op>, k: nat, n: nat) {
    exists a: nat, j: nat :: Encloses(ins, k, n, a) && ElseAhead(ins, k, a, j)
  }

  /** What one instruction does to the open blocks. */
  lemma WorkStep(s: Scan, ks: seq<Kind>, op: Op)
    requires Shape(s, 0) && Kinds(s, ks) && Nested(ks, op).Some?
    ensures s.work != [] && s.Valid() && Stepped(s, op).Ok?
    ensures var t, n, m := Stepped(s, op).value, |s.blocks|, |s.work|;
            match op
            case Other => t.work == s.work
            case End => t.work == s.work[..m - 1] && Top(s.work) < |t.blocks| && t.blocks[Top(s.work)].end == s.pc
            case Else => t.work == s.work[..m - 1] + [n] && |t.blocks| == n + 1 && t.blocks[n].start == s.pc &&
                         t.blocks[Top(s.work)].end == s.pc && t.blocks[Top(s.work)].kind == IfBlock
            case _ => t.work == s.work + [n] && |t.blocks| == n + 1 && t.blocks[n].start == s.pc
  {
    WorkOfKinds(s, ks);
    if op == Else {
      ReadyForElse(s, ks);
    }
    hide Shape, Kinds;
  }

  lemma DepthIsWork(ins: seq<Op>, k: nat)
    requires k <= |ins| && NestAt(ins, k).Some?
    ensures ScanAt(ins, k).Ok? && Depth(ins, k) == |ScanAt(ins, k).value.work|
  {
    hide Shape, Kinds, ScanAt, NestAt;
    ScanShape(ins, k);
    WorkOfKinds(ScanAt(ins, k).value, NestAt(ins, k).kinds);
  }

  /** From the branch on: the block stays open, at its depth, up to the instruction that ends it. */
  lemma {:induction false} EndsAt(ins: seq<Op>, k: nat, pos: nat) returns (e: nat)
    requires Balanced(ins) && k <= |ins| && NestAt(ins, k).Some?
    requires ScanAt(ins, k).Ok? && pos < |ScanAt(ins, k).value.work|
    ensures k <= e < |ins| && ScanAt(ins, |ins|).Ok?
    ensures forall m :: k <= m <= e ==> Depth(ins, m) > pos
    ensures forall m :: k <= m < e ==> !(ins[m] == Else && Depth(ins, m) == pos + 1)
    ensures var t, C := ScanAt(ins, k).value.work[pos], ScanAt(ins, |ins|).value.blocks;
            t < |C| && C[t].end == e + 1 &&
            ((ins[e] == End && Depth(ins, e + 1) == pos) ||
             (ins[e] == Else && Depth(ins, e + 1) == pos + 1 && C[t].kind == IfBlock))
    decreases |ins| - k
  {
    hide Shape, Kinds, ScanAt, NestAt, Nested, Stepped, Depth;
    ScanShape(ins, k);
    DepthIsWork(ins, k);
    assert k < |ins| by {
      if k == |ins| {
        WorkOfKinds(ScanAt(ins, k).value, []);
      }
    }
    if k + 1 < |ins| {
      BalancedBefore(ins, k + 1, |ins|);
    }
    ScanNext(ins, k + 1);
    var s := ScanAt(ins, k).value;
    WorkStep(s, NestAt(ins, k).kinds, ins[k]);
    DepthIsWork(ins, k + 1);
    if pos == |s.work| - 1 && (ins[k] == End || ins[k] == Else) {
      e := k;
      LaterAt(ins, k + 1, |ins|);
      var B, C, t := ScanAt(ins, k + 1).value.blocks, ScanAt(ins, |ins|).value.blocks, s.work[pos];
      assert Kept(B, C, t, k + 1);
    } else {
      assert ScanAt(ins, k + 1).value.work[pos] == s.work[pos];
      e := EndsAt(ins, k + 1, pos);
    }
  }

  lemma ScanStart(ins: seq<Op>)
    ensures ScanAt(ins, 0).Ok? && ScanAt(ins, 0).value.work == [FUNCTION]
  {
  }

  lemma OpenIsBlock(s: Scan, pos: nat)
    requires Shape(s, 0) && pos < |s.work|
    ensures 0 < s.work[pos] < |s.blocks| && |s.blocks| >= 2
  {
  }

  /** The first instruction inside a block, which for the function is the very first. */
  function FirstInside(C: Blocks, t: nat): nat
    requires t < |C|
  {
    if t == FUNCTION then 0 else C[t].start
  }

  /** Back from the branch: the block was open, at its depth, since its first instruction. */
  lemma {:induction false} OpenSince(ins: seq<Op>, k: nat, pos: nat)
    requires k <= |ins| && NestAt(ins, k).Some? && ScanAt(ins, k).Ok? && pos < |ScanAt(ins, k).value.work|
    ensures var s := ScanAt(ins, k).value;
            var t := s.work[pos];
            t < |s.blocks| && var a := FirstInside(s.blocks, t);
            a <= k && Depth(ins, a) == pos + 1 && forall m :: a <= m <= k ==> Depth(ins, m) > pos
    decreases k
  {
    hide Shape, Kinds, ScanAt, NestAt, Nested, Stepped, Depth;
    DepthIsWork(ins, k);
    ScanShape(ins, k);
    var s := ScanAt(ins, k).value;
    var t := s.work[pos];
    OpenIsBlock(s, pos);
    if k == 0 {
      ScanStart(ins);
    } else {
      ScanNext(ins, k);
      ScanShape(ins, k - 1);
      var r := ScanAt(ins, k - 1).value;
      WorkStep(r, NestAt(ins, k - 1).kinds, ins[k - 1]);
      if t < |r.blocks| {
        assert pos < |r.work| && r.work[pos] == t;
        OpenSince(ins, k - 1, pos);
        LaterAt(ins, k - 1, k);
        assert Kept(r.blocks, s.blocks, t, k - 1);
      }
    }
  }

  /** What the block table says of the block at a place of the work stack, in terms of the instructions. */
  lemma BlockOnStack(ins: seq<Op>, k: nat, pos: nat) returns (a: nat, e: nat)
    requires Balanced(ins) && k < |ins| && NestAt(ins, k).Some? && ScanAt(ins, k).Ok? &&
             pos < |ScanAt(ins, k).value.work|
    ensures ScanAt(ins, |ins|).Ok?
    ensures Depth(ins, k) == |ScanAt(ins, k).value.work| && Encloses(ins, k, Depth(ins, k) - 1 - pos, a)
    ensures var t, C := ScanAt(ins, k).value.work[pos], ScanAt(ins, |ins|).value.blocks;
            0 < t < |C| && C[t].end == e + 1 &&
            if t == FUNCTION then a == 0 else a == C[t].start > 0 && OpenedBy(ins, C, t, a - 1)
    ensures Depth(ins, a) == pos + 1 && k <= e < |ins| && forall m :: k <= m <= e ==> Depth(ins, m) > pos
    ensures forall m :: k <= m < e ==> !(ins[m] == Else && Depth(ins, m) == pos + 1)
    ensures (ins[e] == End && Depth(ins, e + 1) == pos) ||
            (ins[e] == Else && Depth(ins, e + 1) == pos + 1 &&
             ScanAt(ins, |ins|).value.blocks[ScanAt(ins, k).value.work[pos]].kind == IfBlock)
  {
    hide Shape, Kinds, ScanAt, NestAt, Depth, OpenedBy, AllOpened;
    e := EndsAt(ins, k, pos);
    OpenSince(ins, k, pos);
    DepthIsWork(ins, k);
    LaterAt(ins, k, |ins|);
    ScanShape(ins, k);
    TreeShape(ins);
    var B, C, t := ScanAt(ins, k).value.blocks, ScanAt(ins, |ins|).value.blocks, ScanAt(ins, k).value.work[pos];
    OpenIsBlock(ScanAt(ins, k).value, pos);
    assert Kept(B, C, t, k);
    a := FirstInside(C, t);
    if t != FUNCTION {
      OpenerOf(ins, C, t);
    }
  }

  lemma OpenerOf(ins: seq<Op>, C: Blocks, t: nat)
    requires AllOpened(ins, C, |ins|) && 2 <= t < |C|
    ensures C[t].start > 0 && OpenedBy(ins, C, t, C[t].start - 1) && C[t].start <= |ins| && Opens(ins[C[t].start - 1])
  {
    assert BlockOpened(ins, C, t, |ins|);
  }

  /** Where and how a construct ends, seen from an instruction k in it: e is the first end or else at its depth. */
  ghost predicate EndsFrom(ins: seq<Op>, k: nat, n: nat, a: nat, e: nat) {
    k <= e < |ins| && Encloses(ins, k, n, a) && (forall m :: k <= m <= e ==> Depth(ins, m) >= Depth(ins, a)) &&
    (forall m :: k <= m < e ==> !(ins[m] == Else && Depth(ins, m) == Depth(ins, a))) &&
    ((ins[e] == End && Depth(ins, e + 1) < Depth(ins, a)) ||
     (ins[e] == Else && Depth(ins, e + 1) == Depth(ins, a) && a > 0 && ins[a - 1] == If))
  }

  lemma ElseDepth(ins: seq<Op>, m: nat)
    requires m < |ins| && ins[m] == Else && NestAt(ins, m + 1).Some?
    ensures Depth(ins, m + 1) == Depth(ins, m)
  {
  }

  lemma NoEarlierElse(ins: seq<Op>, k: nat, n: nat, a: nat, e: nat, a': nat, j: nat)
    requires EndsFrom(ins, k, n, a, e) && Encloses(ins, k, n, a') && ElseAhead(ins, k, a', j)
    ensures ins[e] == Else
  {
    hide Depth;
  }

  /** The first arm is left exactly when the construct ends in an else. */
  lemma FirstArm(ins: seq<Op>, k: nat, n: nat, a: nat, e: nat)
    requires EndsFrom(ins, k, n, a, e) && ins[k] == Other && NestAt(ins, e + 1).Some?
    ensures LeavesFirstArm(ins, k, n) <==> ins[e] == Else
  {
    hide Depth, NestAt;
    if ins[e] == Else {
      ElseDepth(ins, e);
      assert ElseAhead(ins, k, a, e);
    }
    if LeavesFirstArm(ins, k, n) {
      var a': nat, j: nat :| Encloses(ins, k, n, a') && ElseAhead(ins, k, a', j);
      NoEarlierElse(ins, k, n, a, e, a', j);
    }
  }

  /** The end found is the target exactly when it is no else. */
  lemma TargetAt(ins: seq<Op>, k: nat, n: nat, a: nat, e: nat, pc: nat)
    requires EndsFrom(ins, k, n, a, e) && pc == if a > 0 && ins[a - 1] == Loop then a + 1 else e + 2
    ensures IsWasmTarget(ins, k, n, pc) <==> ins[e] != Else
  {
    hide Depth;
    if ins[e] == End {
      assert IsMatchingEnd(ins, a, e);
      assert GoesTo(ins, a, pc);
    }
  }

  lemma BlockTarget(ins: seq<Op>, C: Blocks, t: nat, a: nat, e: nat)
    requires Numbered(C) && 0 < t < |C| && C[t].end == e + 1
    requires if t == FUNCTION then a == 0 else a == C[t].start > 0 && OpenedBy(ins, C, t, a - 1)
    ensures Target(C[t]) == if a > 0 && ins[a - 1] == Loop then a + 1 else e + 2
    ensures C[t].kind == IfBlock <==> a > 0 && ins[a - 1] == If
  {
    hide Openers;
  }

  /**
   * The label of a branch is WebAssembly's target except when the branch leaves the first arm of an if with an else.
   * The label is the table's; target and exception are said of the instructions alone.
   */
  lemma LabelIsWasmTarget(ins: seq<Op>, k: nat, n: nat, work: seq<nat>, C: Blocks)
    requires Balanced(ins) && k < |ins| && ins[k] == Other && |ins| < 0xFFFF_FFFE
    requires ScanAt(ins, k).Ok? && work == ScanAt(ins, k).value.work && n < |work|
    requires ScanAt(ins, |ins|).Ok? && C == ScanAt(ins, |ins|).value.blocks
    ensures |work| == Depth(ins, k) && Numbered(C) && FUNCTION < |C| && 0 < work[|work| - 1 - n] < |C|
    ensures var b := C[work[|work| - 1 - n]];
            0 < b.end <= |ins| && Resolve(k + 1, FUNCTION, C, n) == NewLabel(Target(b), Top(work)) &&
            (IsWasmTarget(ins, k, n, Target(b)) <==> !LeavesFirstArm(ins, k, n)) &&
            (LeavesFirstArm(ins, k, n) <==> b.kind == IfBlock && ins[b.end - 1] == Else)
  {
    hide Shape, Kinds, ScanAt, NestAt, Depth, Resolve, Numbered, Encloses, IsWasmTarget, LeavesFirstArm, OpenedBy,
         AllOpened;
    ResolvesToOpenBlock(ins, k, n);
    BalancedBefore(ins, k, |ins|);
    var pos := |work| - 1 - n;
    var a, e := BlockOnStack(ins, k, pos);
    TreeShape(ins);
    BlockTarget(ins, C, work[pos], a, e);
    SomeAt(ins, e + 1);
    FirstArm(ins, k, n, a, e);
    TargetAt(ins, k, n, a, e, Target(C[work[pos]]));
  }

  lemma SomeAt(ins: seq<Op>, m: nat)
    requires Balanced(ins) && m <= |ins|
    ensures NestAt(ins, m).Some?
  {
    if m < |ins| {
      BalancedBefore(ins, m, |ins|);
    }
  }

  /** The kinds of the constructs open before instruction m. */
  function KindsAt(ins: seq<Op>, m: nat): (ks: seq<Kind>)
    requires m <= |ins|
    ensures |ks| == Depth(ins, m)
  {
    match NestAt(ins, m)
    case None => []
    case Some(ks) => ks
  }

  /** While a construct stays open its kind stays, but for an if that turns into its else. */
  lemma {:induction false} KindStays(ins: seq<Op>, a: nat, m: nat)
    requires a <= m <= |ins| && NestAt(ins, m).Some? && Depth(ins, a) > 0
    requires forall i :: a <= i <= m ==> Depth(ins, i) >= Depth(ins, a)
    ensures var d := Depth(ins, a) - 1;
            KindsAt(ins, m)[d] == KindsAt(ins, a)[d] ||
            (KindsAt(ins, a)[d] == IfBlock && KindsAt(ins, m)[d] == ElseBlock)
    decreases m
  {
    if a < m {
      KindStays(ins, a, m - 1);
      assert Depth(ins, m) >= Depth(ins, a) && Depth(ins, m - 1) >= Depth(ins, a);
    }
  }

  lemma OpenerKind(ins: seq<Op>, a: nat)
    requires 0 < a <= |ins| && NestAt(ins, a).Some? && Opens(ins[a - 1])
    ensures Depth(ins, a) > 0 && KindsAt(ins, a)[Depth(ins, a) - 1] == OpenedKind(ins[a - 1])
    ensures Depth(ins, a) > Depth(ins, a - 1) || (ins[a - 1] == Else && Depth(ins, a) == Depth(ins, a - 1) &&
              KindsAt(ins, a - 1)[Depth(ins, a) - 1] == IfBlock)
    ensures NestAt(ins, a - 1).Some?
  {
  }

  lemma FunctionKind(ins: seq<Op>)
    ensures KindsAt(ins, 0) == [FuncBlock]
  {
  }

  /** Two places that a branch counts as the start of one construct: the if's and, after it, the else's. */
  lemma IfAndElse(ins: seq<Op>, k: nat, n: nat, a: nat, a': nat)
    requires Encloses(ins, k, n, a) && Encloses(ins, k, n, a') && a < a' && NestAt(ins, k).Some?
    requires NestAt(ins, a).Some? && NestAt(ins, a').Some? && Depth(ins, a) > 0
    ensures 0 < a && ins[a - 1] == If && ins[a' - 1] == Else
  {
    hide Depth, NestAt, KindsAt;
    OpenerKind(ins, a');
    KindStays(ins, a, a' - 1);
    if a > 0 {
      OpenerKind(ins, a);
    } else {
      FunctionKind(ins);
    }
  }

  lemma SameEnd(ins: seq<Op>, k: nat, n: nat, a: nat, a': nat, j: nat, j': nat)
    requires Encloses(ins, k, n, a) && Encloses(ins, k, n, a') && a <= a' && IsMatchingEnd(ins, a, j) &&
             IsMatchingEnd(ins, a', j')
    ensures j == j'
  {
    hide Depth;
    assert k <= j && k <= j';
  }

  lemma {:induction false} MatchingEnd(ins: seq<Op>, a: nat, m: nat) returns (j: nat)
    requires Balanced(ins) && a <= m <= |ins| && Depth(ins, a) > 0
    requires forall i :: a <= i <= m ==> Depth(ins, i) >= Depth(ins, a)
    ensures IsMatchingEnd(ins, a, j)
    decreases |ins| - m
  {
    AllClosed(ins);
    hide Depth, NestAt;
    SomeAt(ins, m + 1);
    OneDown(ins, m);
    if Depth(ins, m + 1) < Depth(ins, a) {
      j := m;
    } else {
      j := MatchingEnd(ins, a, m + 1);
    }
  }

  lemma AllClosed(ins: seq<Op>)
    requires Balanced(ins)
    ensures Depth(ins, |ins|) == 0
  {
  }

  lemma OneDown(ins: seq<Op>, m: nat)
    requires m < |ins| && NestAt(ins, m + 1).Some?
    ensures Depth(ins, m + 1) < Depth(ins, m) ==> ins[m] == End
  {
  }

  /** Every branch out of no more constructs than are open has a target. */
  lemma SomeWasmTarget(ins: seq<Op>, k: nat, n: nat) returns (pc: nat)
    requires Balanced(ins) && k < |ins| && n < Depth(ins, k)
    ensures IsWasmTarget(ins, k, n, pc)
  {
    hide Shape, Kinds, ScanAt, NestAt, Depth, OpenedBy, IsMatchingEnd;
    SomeAt(ins, k);
    DepthIsWork(ins, k);
    var a, e := BlockOnStack(ins, k, Depth(ins, k) - 1 - n);
    if a > 0 && ins[a - 1] == Loop {
      pc := a + 1;
    } else {
      var j := MatchingEnd(ins, a, k);
      pc := j + 2;
    }
    assert GoesTo(ins, a, pc);
  }

  /** A branch has no second target. */
  lemma OneWasmTarget(ins: seq<Op>, k: nat, n: nat, pc: nat, pc': nat)
    requires Balanced(ins) && k < |ins| && IsWasmTarget(ins, k, n, pc) && IsWasmTarget(ins, k, n, pc')
    ensures pc == pc'
  {
    hide Encloses, GoesTo, NestAt, Depth;
    var a: nat :| Encloses(ins, k, n, a) && GoesTo(ins, a, pc);
    var a': nat :| Encloses(ins, k, n, a') && GoesTo(ins, a', pc');
    if a <= a' {
      SameTarget(ins, k, n, a, a', pc, pc');
    } else {
      SameTarget(ins, k, n, a', a, pc', pc);
    }
  }

  lemma SameTarget(ins: seq<Op>, k: nat, n: nat, a: nat, a': nat, pc: nat, pc': nat)
    requires Balanced(ins) && Encloses(ins, k, n, a) && Encloses(ins, k, n, a') && a <= a'
    requires GoesTo(ins, a, pc) && GoesTo(ins, a', pc')
    ensures pc == pc'
  {
    hide NestAt, Depth, IsMatchingEnd;
    SomeAt(ins, k);
    SomeAt(ins, a);
    SomeAt(ins, a');
    if a < a' {
      OpenDepth(ins, a);
      IfAndElse(ins, k, n, a, a');
    }
    if !(a > 0 && ins[a - 1] == Loop) {
      var j: nat :| IsMatchingEnd(ins, a, j) && pc == j + 2;
      var j': nat :| IsMatchingEnd(ins, a', j') && pc' == j' + 2;
      SameEnd(ins, k, n, a, a', j, j');
    }
  }

  lemma OpenDepth(ins: seq<Op>, a: nat)
    requires Balanced(ins) && a < |ins|
    ensures Depth(ins, a) > 0
  {
    BalancedBefore(ins, a, |ins|);
  }

  // ------------------------------------------------------ what the other instructions are answered

  /** Block d is over before pc. */
  ghost predicate Over(C: Blocks, d: nat, pc: nat) {
    0 < d < |C| <= LABEL_NOT_NEEDED && 0 < C[d].start && 0 < C[d].end < pc
  }

  /** Block p is strictly around pc, and its children before child y are over. */
  ghost predicate HoldsAt(C: Blocks, p: nat, y: nat, pc: nat) {
    0 < p < |C| <= LABEL_NOT_NEEDED && y < |C[p].child| && 0 < C[p].start &&
    (C[p].start < pc || (C[p].kind == FuncBlock && C[p].start == pc)) && pc < C[p].end &&
    forall x :: 0 <= x < y ==> Over(C, C[p].child[x], pc)
  }

  lemma {:induction false} FoundAt(C: Blocks, p: nat, x: nat, y: nat, pc: nat, n: nat)
    requires Numbered(C) && HoldsAt(C, p, y, pc) && x <= y
    requires C[p].child[y] < |C| && Resolve(pc, C[p].child[y], C, n) != Invalid
    ensures FirstFound(pc, p, x, C, n) == Resolve(pc, C[p].child[y], C, n)
    decreases y - x
  {
    hide Numbered;
    if x < y {
      ChildOf(C, p, x);
      assert Over(C, C[p].child[x], pc);
      FoundAt(C, p, x + 1, y, pc, n);
    }
  }

  lemma StepDown(C: Blocks, p: nat, y: nat, pc: nat, n: nat)
    requires Numbered(C) && HoldsAt(C, p, y, pc)
    requires C[p].child[y] < |C| && Resolve(pc, C[p].child[y], C, n) != Invalid
    ensures Resolve(pc, p, C, n) == Resolve(pc, C[p].child[y], C, n)
  {
    FoundAt(C, p, 0, y, pc, n);
    hide Numbered, FirstFound;
  }

  /** The finished hierarchy C around an instruction that is scanned in state s. */
  ghost predicate Around(s: Scan, C: Blocks) {
    Shape(s, 0) && s.work != [] && s.pc > 0 && Numbered(C) && Inside(C) && Ordered(C) &&
    Later(s.blocks, C, s.pc - 1) && |C| <= LABEL_NOT_NEEDED && forall i :: 1 <= i < |C| ==> C[i].end != 0
  }

  /** A block that was ended before is over. */
  lemma OverBefore(s: Scan, C: Blocks, d: nat)
    requires Around(s, C) && 2 <= d < |s.blocks| && s.blocks[d].end != 0
    ensures Over(C, d, s.pc)
  {
    var before := s.pc - 1;
    assert Kept(s.blocks, C, d, before) && PastAt(s.blocks, d, s.pc, 0);
  }

  lemma OpenBefore(s: Scan, C: Blocks, j: nat)
    requires Around(s, C) && j < |s.work|
    ensures var b := s.work[j];
            0 < b < |s.blocks| <= |C| && C[b].end >= s.pc && C[b].kind != NoBlock &&
            0 < C[b].start && (C[b].start < s.pc || (C[b].kind == FuncBlock && C[b].start == s.pc))
  {
    var b, before := s.work[j], s.pc - 1;
    assert Kept(s.blocks, C, b, before) && IsOpen(s, b) && PastAt(s.blocks, b, s.pc, 0);
    if b >= 2 {
      assert HasParent(C, b);
    }
  }

  lemma EarlierChild(C: Blocks, p: nat, x: nat, y: nat)
    requires Ordered(C) && p < |C| && x < y < |C[p].child|
    ensures C[p].child[x] < C[p].child[y]
  {
    assert Precedes(C, p, x, y);
  }

  lemma EndsInside(C: Blocks, c: nat)
    requires Inside(C) && 2 <= c < |C| && C[c].parent < |C| && C[C[c].parent].end != 0
    ensures C[c].end < C[C[c].parent].end
  {
    assert InsideParent(C, c);
  }

  lemma KeptParent(s: Scan, C: Blocks, d: nat)
    requires Around(s, C) && d < |s.blocks|
    ensures d < |C| && C[d].parent == s.blocks[d].parent
  {
    var before := s.pc - 1;
    assert Kept(s.blocks, C, d, before);
  }

  /** Where the open block above is found among the children of the one below. */
  lemma OpenChildAt(s: Scan, C: Blocks, j: nat) returns (y: nat)
    requires Around(s, C) && j + 1 < |s.work|
    ensures 0 < s.work[j] < |C| && y < |C[s.work[j]].child| && C[s.work[j]].child[y] == s.work[j + 1] < |s.blocks|
  {
    LastChild(s, j);
    var p, before := s.work[j], s.pc - 1;
    assert s.Valid() && s.work[j + 1] < |s.blocks| <= |C|;
    assert Kept(s.blocks, C, p, before);
    y := |s.blocks[p].child| - 1;
  }

  lemma OverUnlessOpen(s: Scan, C: Blocks, j: nat, d: nat)
    requires Around(s, C) && j < |s.work| && 2 <= d < |s.blocks| <= |C| && C[d].parent == s.work[j]
    requires j + 1 < |s.work| ==> d != s.work[j + 1]
    ensures Over(C, d, s.pc)
  {
    KeptParent(s, C, d);
    OpenChild(s, j, d);
    hide Numbered, Shape, Later, Inside, Ordered, Around;
    OverBefore(s, C, d);
  }

  lemma PathHolds(s: Scan, C: Blocks, j: nat) returns (y: nat)
    requires Around(s, C) && j + 1 < |s.work|
    ensures HoldsAt(C, s.work[j], y, s.pc) && C[s.work[j]].child[y] == s.work[j + 1] < |C|
  {
    hide Numbered, Shape, Later, Inside, Ordered;
    y := OpenChildAt(s, C, j);
    var p := s.work[j];
    OpenBefore(s, C, j);
    OpenBefore(s, C, j + 1);
    ChildOf(C, p, y);
    EndsInside(C, s.work[j + 1]);
    forall x | 0 <= x < y ensures Over(C, C[p].child[x], s.pc) {
      ChildOf(C, p, x);
      EarlierChild(C, p, x, y);
      OverUnlessOpen(s, C, j, C[p].child[x]);
    }
  }

  /** The search goes down the open blocks to the top one, if it finds an answer there. */
  lemma {:induction false} DownTo(s: Scan, C: Blocks, j: nat, n: nat)
    requires Around(s, C) && j < |s.work| && Top(s.work) < |C| && Resolve(s.pc, Top(s.work), C, n) != Invalid
    ensures s.work[j] < |C| && Resolve(s.pc, s.work[j], C, n) == Resolve(s.pc, Top(s.work), C, n)
    decreases |s.work| - j
  {
    hide Numbered, Shape, Later, Inside, Ordered, Resolve, HoldsAt;
    if j + 1 < |s.work| {
      var y := PathHolds(s, C, j);
      DownTo(s, C, j + 1, n);
      InRange(C, s.work[j], y, s.pc);
      StepDown(C, s.work[j], y, s.pc, n);
    }
  }

  lemma InRange(C: Blocks, p: nat, y: nat, pc: nat)
    requires HoldsAt(C, p, y, pc)
    ensures p < |C|
  {
  }

  lemma AroundAt(ins: seq<Op>, k: nat)
    requires Balanced(ins) && k < |ins| && |ins| < 0xFFFF_FFFE
    ensures NestAt(ins, k).Some? && ScanAt(ins, k).Ok? && ScanAt(ins, |ins|).Ok?
    ensures var s := ScanAt(ins, k).value;
            Around(s, ScanAt(ins, |ins|).value.blocks) && s.pc == k + 1 && s.work[0] == FUNCTION &&
            |s.blocks| == 2 + Openers(ins, k) && Nested(NestAt(ins, k).kinds, ins[k]).Some? &&
            Stepped(s, ins[k]).Ok? && ScanAt(ins, k + 1) == Stepped(s, ins[k]) && Kinds(s, NestAt(ins, k).kinds)
  {
    hide Shape, Kinds, Later, Numbered, Inside, Ordered, ScanAt, NestAt, Nested, Stepped;
    TreeShape(ins);
    BalancedBefore(ins, k, |ins|);
    SomeAt(ins, k + 1);
    ScanNext(ins, k + 1);
    LaterAt(ins, k, |ins|);
    ScanShape(ins, k);
    StepShape(ScanAt(ins, k).value, NestAt(ins, k).kinds, ins[k]);
    WorkOfKinds(ScanAt(ins, k).value, NestAt(ins, k).kinds);
    Bottom(ScanAt(ins, k).value);
    FewOpeners(ins, |ins|);
  }

  /** What opening a block under the top one leaves, seen from the finished hierarchy. */
  lemma OpenedInside(s: Scan, op: Op, C: Blocks)
    requires Around(s, C) && (op == If || op == Block || op == Loop)
    requires s.Valid() && Stepped(s, op).Ok? && Later(Stepped(s, op).value.blocks, C, s.pc)
    ensures var p, d := Top(s.work), |s.blocks|;
            0 < p < d < |C| && C[d].kind == OpenedKind(op) && C[d].start == s.pc && C[d].end > s.pc &&
            C[p].end > s.pc && var y := |s.blocks[p].child|;
            y < |C[p].child| && C[p].child[y] == d && forall x :: 0 <= x < y ==> C[p].child[x] == s.blocks[p].child[x]
  {
    var B, p, d := Stepped(s, op).value.blocks, Top(s.work), |s.blocks|;
    TopChildrenOver(s);
    hide Numbered, Shape, Inside, Ordered;
    assert Kept(B, C, p, s.pc) && Kept(B, C, d, s.pc);
    assert B[p].child == s.blocks[p].child + [d];
  }

  lemma TopHolds(s: Scan, op: Op, C: Blocks) returns (y: nat)
    requires Around(s, C) && (op == If || op == Block || op == Loop)
    requires s.Valid() && Stepped(s, op).Ok? && Later(Stepped(s, op).value.blocks, C, s.pc)
    ensures HoldsAt(C, Top(s.work), y, s.pc) && C[Top(s.work)].child[y] == |s.blocks| < |C|
  {
    hide Numbered, Shape, Later, Inside, Ordered, Stepped;
    OpenedInside(s, op, C);
    var p := Top(s.work);
    OpenBefore(s, C, |s.work| - 1);
    y := |s.blocks[p].child|;
    forall x | 0 <= x < y ensures Over(C, C[p].child[x], s.pc) {
      ChildOf(C, p, x);
      EarlierChild(C, p, x, y);
      OverUnlessOpen(s, C, |s.work| - 1, C[p].child[x]);
    }
  }

  /** What the search answers where a block starts. */
  function StartAnswer(op: Op, C: Blocks, d: nat): Answer
    requires d < |C|
  {
    if op == If then NewLabel(C[d].end + 1, d) else if op == Loop then NotNeeded else Abort
  }

  lemma StartFound(s: Scan, op: Op, C: Blocks, n: nat)
    requires Around(s, C) && (op == If || op == Block || op == Loop)
    requires s.Valid() && Stepped(s, op).Ok? && Later(Stepped(s, op).value.blocks, C, s.pc)
    ensures Top(s.work) < |C| && |s.blocks| < |C| &&
            Resolve(s.pc, Top(s.work), C, n) == StartAnswer(op, C, |s.blocks|)
  {
    hide Shape, Later, Inside, Ordered, Stepped, FirstFound, Climb, HoldsAt;
    OpenedInside(s, op, C);
    var y := TopHolds(s, op, C);
    assert Resolve(s.pc, |s.blocks|, C, n) == StartAnswer(op, C, |s.blocks|);
    hide Numbered, Resolve;
    StepDown(C, Top(s.work), y, s.pc, n);
  }

  /** What the search answers where the top block ends. */
  lemma EndFound(s: Scan, op: Op, ks: seq<Kind>, C: Blocks, n: nat)
    requires Around(s, C) && (op == Else || op == End) && Kinds(s, ks) && Nested(ks, op).Some?
    requires s.Valid() && Stepped(s, op).Ok? && Later(Stepped(s, op).value.blocks, C, s.pc)
    ensures Top(s.work) < |C| && Resolve(s.pc, Top(s.work), C, n) == NotNeeded
  {
    hide Shape, Inside, Ordered, FirstFound, Climb, Kinds, Nested, Stepped;
    WorkStep(s, ks, op);
    OpenBefore(s, C, |s.work| - 1);
    var B, p := Stepped(s, op).value.blocks, Top(s.work);
    assert Kept(B, C, p, s.pc);
  }

  /** What Get_label_index_for_branch answers at instruction k, whatever the branch count, when that is no branch. */
  lemma AnswerAt(ins: seq<Op>, k: nat, n: nat)
    requires Balanced(ins) && k < |ins| && ins[k] != Other && |ins| < 0xFFFF_FFFE
    ensures ScanAt(ins, |ins|).Ok?
    ensures var C, t := ScanAt(ins, |ins|).value.blocks, 2 + Openers(ins, k);
            Numbered(C) && FUNCTION < |C| &&
            if ins[k] == End || ins[k] == Else then Resolve(k + 1, FUNCTION, C, n) == NotNeeded
            else t < |C| && Resolve(k + 1, FUNCTION, C, n) == StartAnswer(ins[k], C, t)
  {
    hide Shape, Later, Inside, Ordered, Resolve, ScanAt, NestAt, Nested, Stepped, Kinds, Numbered;
    AroundAt(ins, k);
    SomeAt(ins, k + 1);
    LaterAt(ins, k + 1, |ins|);
    ScanShape(ins, k);
    var s, C := ScanAt(ins, k).value, ScanAt(ins, |ins|).value.blocks;
    if ins[k] == End || ins[k] == Else {
      EndFound(s, ins[k], NestAt(ins, k).kinds, C, n);
    } else {
      StartFound(s, ins[k], C, n);
    }
    DownTo(s, C, 0, n);
  }

  /** Only one instruction is the first end or else of a construct. */
  lemma OneEnd(ins: seq<Op>, k: nat, n: nat, a: nat, e: nat, e': nat)
    requires Balanced(ins) && EndsFrom(ins, k, n, a, e) && EndsFrom(ins, k, n, a, e')
    ensures e == e'
  {
    hide Depth, Encloses, NestAt;
    SomeAt(ins, e + 1);
    SomeAt(ins, e' + 1);
    if ins[e] == Else {
      ElseDepth(ins, e);
    }
    if ins[e'] == Else {
      ElseDepth(ins, e');
    }
  }

  /**
   * At an if the search answers a label for the conditional jump: the first instruction of the else arm, or the one
   * past the end when there is no else. It is made for the block that the if opened.
   */
  lemma IfSkipsFirstArm(ins: seq<Op>, k: nat, n: nat) returns (e: nat)
    requires Balanced(ins) && k < |ins| && ins[k] == If && |ins| < 0xFFFF_FFFE
    ensures ScanAt(ins, |ins|).Ok? && EndsFrom(ins, k + 1, 0, k + 1, e)
    ensures var C, t := ScanAt(ins, |ins|).value.blocks, 2 + Openers(ins, k);
            Numbered(C) && FUNCTION < |C| && OpenedBy(ins, C, t, k) &&
            Resolve(k + 1, FUNCTION, C, n) == NewLabel(e + 2, t)
  {
    hide Shape, Later, Inside, Ordered, Resolve, ScanAt, NestAt, Nested, Stepped, Kinds, Depth, Openers, OpenedBy,
         AllOpened;
    AnswerAt(ins, k, n);
    AroundAt(ins, k);
    SomeAt(ins, k + 1);
    NotLast(ins, k);
    TreeShape(ins);
    ServedAt(ins, ScanAt(ins, |ins|).value.blocks, k);
    var s, r := ScanAt(ins, k).value, ScanAt(ins, k + 1).value;
    WorkStep(s, NestAt(ins, k).kinds, ins[k]);
    var a;
    a, e := BlockOnStack(ins, k + 1, |r.work| - 1);
    assert Encloses(ins, k + 1, 0, a);
    StartOf(ins, ScanAt(ins, |ins|).value.blocks, 2 + Openers(ins, k), k);
  }

  lemma NotLast(ins: seq<Op>, k: nat)
    requires Balanced(ins) && k < |ins| && ins[k] != End
    ensures k + 1 < |ins|
  {
    if k + 1 == |ins| {
      BalancedBefore(ins, k, |ins|);
    }
  }

  lemma ServedAt(ins: seq<Op>, C: Blocks, k: nat)
    requires AllOpened(ins, C, |ins|) && k < |ins| && Opens(ins[k])
    ensures OpenedBy(ins, C, 2 + Openers(ins, k), k)
  {
    hide OpenedBy;
    assert OpenerServed(ins, C, k);
  }

  lemma StartOf(ins: seq<Op>, C: Blocks, t: nat, k: nat)
    requires OpenedBy(ins, C, t, k)
    ensures t < |C| && C[t].start == k + 1 && C[t].kind == OpenedKind(ins[k])
  {
  }

  /** No label is made at a loop, an else or an end, so the first arm of an if runs on into its else arm; a block is
      not to be asked about. */
  lemma OthersNeedNoLabel(ins: seq<Op>, k: nat, n: nat)
    requires Balanced(ins) && k < |ins| && |ins| < 0xFFFF_FFFE
    ensures ScanAt(ins, |ins|).Ok? && Numbered(ScanAt(ins, |ins|).value.blocks)
    ensures FUNCTION < |ScanAt(ins, |ins|).value.blocks|
    ensures var a := Resolve(k + 1, FUNCTION, ScanAt(ins, |ins|).value.blocks, n);
            (a == NotNeeded <==> ins[k] == Loop || ins[k] == Else || ins[k] == End) &&
            (ins[k] == Block ==> a == Abort) && a != Invalid
  {
    hide Shape, Later, ScanAt, Resolve;
    if ins[k] == Other {
      ResolvesToOpenBlock(ins, k, n);
    } else {
      AnswerAt(ins, k, n);
    }
  }

  /** A branch out of an if from its first arm: the label is in the else arm, not after the end. */
  lemma IntoTheElse(ins: seq<Op>, C: Blocks)
    requires ins == [If, Other, Else, End, End]
    requires C == [Blk(NoBlock, 0, [], 0, 0), Blk(FuncBlock, 0, [2, 3], 1, 5),
                   Blk(IfBlock, 1, [], 1, 3), Blk(ElseBlock, 1, [], 3, 4)]
    ensures Balanced(ins) && ScanAt(ins, 1).Ok? && ScanAt(ins, 5).Ok? && ScanAt(ins, 5).value.blocks == C
    ensures Numbered(C) && Resolve(2, FUNCTION, C, 0) == NewLabel(4, 2) && !IsWasmTarget(ins, 1, 0, 4)
  {
    NestOfExample(ins);
    ScanOfExample(ins, C);
    hide Shape, Kinds, Resolve, IsWasmTarget, ScanAt, NestAt;
    LabelIsWasmTarget(ins, 1, 0, [1, 2], C);
  }

  lemma NestOfExample(ins: seq<Op>)
    requires ins == [If, Other, Else, End, End]
    ensures Balanced(ins)
  {
    assert NestAt(ins, 1) == Some([FuncBlock, IfBlock]);
    assert NestAt(ins, 2) == Some([FuncBlock, IfBlock]);
    assert NestAt(ins, 3) == Some([FuncBlock, ElseBlock]);
    assert NestAt(ins, 4) == Some([FuncBlock]);
    assert NestAt(ins, 5) == Some([]);
  }

  /** The scan inside the if, and inside its else. */
  function AfterIf(): Scan {
    Scan([Blk(NoBlock, 0, [], 0, 0), Blk(FuncBlock, 0, [2], 1, 0), Blk(IfBlock, 1, [], 1, 0)], [1, 2], 2)
  }

  function AfterElse(): Scan {
    Scan([Blk(NoBlock, 0, [], 0, 0), Blk(FuncBlock, 0, [2, 3], 1, 0), Blk(IfBlock, 1, [], 1, 3),
          Blk(ElseBlock, 1, [], 3, 0)], [1, 3], 4)
  }

  lemma ExampleIf()
    ensures Stepped(Start(), If) == Ok(AfterIf())
  {
    var s := Start();
    assert s == Scan([Blk(NoBlock, 0, [], 0, 0), Blk(FuncBlock, 0, [], 1, 0)], [1], 1);
    assert s.blocks[1].child + [2] == [2] && s.work + [2] == [1, 2];
    assert Created(s, IfBlock).blocks == AfterIf().blocks;
  }

  lemma ExampleElse()
    ensures Stepped(AfterIf().(pc := 3), Else) == Ok(AfterElse())
  {
    var s := AfterIf().(pc := 3);
    var t := Finished(s);
    assert t.blocks == [s.blocks[0], s.blocks[1], Blk(IfBlock, 1, [], 1, 3)] && t.work == [1];
    assert t.blocks[1].child + [3] == [2, 3] && t.work + [3] == [1, 3];
    assert Created(t, ElseBlock).blocks == AfterElse().blocks;
  }

  lemma ExampleEnds(C: Blocks)
    requires C == [Blk(NoBlock, 0, [], 0, 0), Blk(FuncBlock, 0, [2, 3], 1, 5),
                   Blk(IfBlock, 1, [], 1, 3), Blk(ElseBlock, 1, [], 3, 4)]
    ensures var r := Stepped(AfterElse(), End);
            r.Ok? && Stepped(r.value, End).Ok? && Stepped(r.value, End).value.blocks == C
  {
    var t := Stepped(AfterElse(), End).value;
    assert t.blocks == C[1 := C[1].(end := 0)] && t.work == [1];
  }

  lemma ScanOfExample(ins: seq<Op>, C: Blocks)
    requires ins == [If, Other, Else, End, End] && Balanced(ins)
    requires C == [Blk(NoBlock, 0, [], 0, 0), Blk(FuncBlock, 0, [2, 3], 1, 5),
                   Blk(IfBlock, 1, [], 1, 3), Blk(ElseBlock, 1, [], 3, 4)]
    ensures ScanAt(ins, 1).Ok? && ScanAt(ins, 1).value.work == [1, 2]
    ensures ScanAt(ins, 5).Ok? && ScanAt(ins, 5).value.blocks == C
  {
    hide ScanAt, NestAt, Nested, Created, Finished, Start, AfterElse;
    ExampleIf();
    ExampleElse();
    ExampleEnds(C);
    ScanNext(ins, 5);
    ScanNext(ins, 4);
    ScanNext(ins, 3);
    ScanNext(ins, 2);
    ScanNext(ins, 1);
    FirstScan(ins);
  }

  lemma FirstScan(ins: seq<Op>)
    ensures ScanAt(ins, 0) == Ok(Start())
  {
  }
}
