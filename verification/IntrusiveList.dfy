/** The intrusive doubly linked list of src/intrusive-list.h refines a sequence of nodes. */
module IntrusiveList {

  /** intrusive_list_base: the links live in the element. */
  class Node {
    var next: Node?
    var prev: Node?

    constructor ()
      ensures next == null && prev == null
    {
      next, prev := null, null;
    }
  }

  ghost predicate Distinct(s: seq<Node>) {
    forall i, j :: 0 <= i < j < |s| ==> s[i] != s[j]
  }

  /** The element at an index, or null for the end. */
  ghost function At(s: seq<Node>, i: int): (n: Node?) {
    if 0 <= i < |s| then s[i] else null
  }

  /** Each prev link outside s[lo..hi] names the node before. */
  ghost predicate PrevRight(s: seq<Node>, lo: int, hi: int)
    reads s
  {
    forall i {:trigger s[i].prev} :: 0 <= i < |s| && !(lo <= i < hi) ==> s[i].prev == At(s, i - 1)
  }

  /** Each next link outside s[lo..hi] names the node after. */
  ghost predicate NextRight(s: seq<Node>, lo: int, hi: int)
    reads s
  {
    forall i {:trigger s[i].next} :: 0 <= i < |s| && !(lo <= i < hi) ==> s[i].next == At(s, i + 1)
  }

  /** Each node's links name its neighbours. */
  ghost predicate Mirrored(s: seq<Node>)
    reads s
  {
    PrevRight(s, 0, 0) && NextRight(s, 0, 0)
  }

  ghost predicate Apart(s: seq<Node>, t: seq<Node>) {
    forall n :: n in s ==> n !in t
  }

  /** Where an iterator stands: the index of its node, the length for end(). */
  ghost predicate Stands(s: seq<Node>, pos: Node?, k: nat) {
    k <= |s| && pos == At(s, k)
  }

  /** The links around a node put in front of s[k], every other link being as it was. */
  lemma InsertMirrored(s: seq<Node>, k: nat, node: Node)
    requires k < |s|
    requires node.prev == At(s, k - 1) && node.next == s[k] && s[k].prev == node && (k > 0 ==> s[k - 1].next == node)
    requires PrevRight(s, k, k + 1) && NextRight(s, k - 1, k)
    ensures Mirrored(s[..k] + [node] + s[k..])
  {
    var s' := s[..k] + [node] + s[k..];
    forall i | 0 <= i < |s'|
      ensures s'[i].prev == At(s', i - 1) && s'[i].next == At(s', i + 1)
    {
      if i < k {
        assert s'[i] == s[i];
      } else if i > k {
        assert s'[i] == s[i - 1];
      }
    }
  }

  lemma InsertDistinct(s: seq<Node>, k: nat, node: Node)
    requires k <= |s| && Distinct(s) && node !in s
    ensures Distinct(s[..k] + [node] + s[k..])
  {
    var s' := s[..k] + [node] + s[k..];
    forall i, j | 0 <= i < j < |s'| ensures s'[i] != s'[j] {
      assert i < k ==> s'[i] == s[i];
      assert i > k ==> s'[i] == s[i - 1];
      assert j < k ==> s'[j] == s[j];
      assert j > k ==> s'[j] == s[j - 1];
    }
  }

  /** The links around a removed s[k], every other link being as it was. */
  lemma ExtractMirrored(s: seq<Node>, k: nat)
    requires k < |s|
    requires (k > 0 ==> s[k - 1].next == At(s, k + 1)) && (k + 1 < |s| ==> s[k + 1].prev == At(s, k - 1))
    requires PrevRight(s, k, k + 2) && NextRight(s, k - 1, k + 1)
    ensures Mirrored(s[..k] + s[k + 1..])
  {
    var s' := s[..k] + s[k + 1..];
    forall i | 0 <= i < |s'|
      ensures s'[i].prev == At(s', i - 1) && s'[i].next == At(s', i + 1)
    {
      if i < k {
        assert s'[i] == s[i];
      } else {
        assert s'[i] == s[i + 1];
      }
    }
  }

  lemma ExtractDistinct(s: seq<Node>, k: nat)
    requires k < |s| && Distinct(s)
    ensures Distinct(s[..k] + s[k + 1..]) && s[k] !in s[..k] + s[k + 1..]
  {
    var s' := s[..k] + s[k + 1..];
    forall i, j | 0 <= i < j < |s'| ensures s'[i] != s'[j] {
      assert s'[i] == s[if i < k then i else i + 1] && s'[j] == s[if j < k then j else j + 1];
    }
    forall i | 0 <= i < |s'| ensures s'[i] != s[k] {
      assert s'[i] == s[if i < k then i else i + 1];
    }
  }

  /** Untouched links stay mirrored. */
  twostate lemma MirroredKept(s: seq<Node>)
    requires old(Mirrored(s)) && forall n :: n in s ==> n.prev == old(n.prev) && n.next == old(n.next)
    ensures Mirrored(s)
  {
  }

  lemma StillApart(s: seq<Node>, o: seq<Node>, k: nat, i: nat)
    requires k <= |s| && i < |o| && Distinct(o) && Apart(s, o)
    ensures o[i] !in o[..i] + o[i + 1..] && Apart(s, o[..i] + o[i + 1..])
    ensures Apart(s[..k] + [o[i]] + s[k..], o[..i] + o[i + 1..])
  {
    ExtractDistinct(o, i);
    var rest := o[..i] + o[i + 1..];
    forall n | n in rest ensures n in o {}
    forall n | n in s[..k] + [o[i]] + s[k..] ensures n !in rest {
      assert n in s || n == o[i];
    }
  }

  /** Taking one element out of one list and putting it into another, or into the same. */
  lemma OneElement(same: bool, s: seq<Node>, o: seq<Node>, k: nat, i: nat)
    requires k <= |s| && i < |o| && Distinct(o) && (if same then s == o && k != i else Apart(s, o))
    ensures var rest, k' := Without(o, i, i + 1), if same && k > i then k - 1 else k;
            var left := if same then rest else s;
            Stands(left, At(s, k), k') && o[i] !in left && (forall x :: 0 <= x < |left| ==> left[x] in s) &&
            Into(same, s, o, k, i, i + 1) == With(left, k', [o[i]]) &&
            From(same, s, o, k, i, i + 1) == (if same then With(left, k', [o[i]]) else rest) &&
            (!same ==> (forall n :: n in s ==> n !in o) && (forall n :: n in rest ==> n !in s && n != o[i]) &&
                       Apart(With(left, k', [o[i]]), rest))
  {
    ExtractDistinct(o, i);
    assert o[i..i + 1] == [o[i]];
    if !same {
      StillApart(s, o, k, i);
    }
  }

  /** s with r put in front of s[k]. */
  ghost function With(s: seq<Node>, k: nat, r: seq<Node>): seq<Node>
    requires k <= |s|
  {
    s[..k] + r + s[k..]
  }

  /** s less s[i..j]. */
  ghost function Without(s: seq<Node>, i: nat, j: nat): seq<Node>
    requires i <= j <= |s|
  {
    s[..i] + s[j..]
  }

  /** s with s[i..j] moved in front of s[k], which does not lie inside it. */
  ghost function Moved(s: seq<Node>, k: nat, i: nat, j: nat): (m: seq<Node>)
    requires i <= j <= |s| && k <= |s| && (k <= i || j <= k)
    ensures |m| == |s|
  {
    With(Without(s, i, j), if k <= i then k else k - (j - i), s[i..j])
  }

  /** Moving a range past its neighbours swaps two pieces. */
  lemma MovedPieces(a: seq<Node>, b: seq<Node>, c: seq<Node>, d: seq<Node>)
    ensures Moved(a + b + c + d, |a|, |a + b|, |a + b + c|) == a + c + b + d
    ensures Moved(a + b + c + d, |a + b + c|, |a|, |a + b|) == a + c + b + d
  {
    var s := a + b + c + d;
    assert Without(s, |a + b|, |a + b + c|) == a + b + d && s[|a + b|..|a + b + c|] == c;
    assert Without(s, |a|, |a + b|) == a + c + d && s[|a|..|a + b|] == b;
  }

  lemma Pieces(s: seq<Node>, i: nat, j: nat, k: nat)
    requires i <= j <= k <= |s|
    ensures s == s[..i] + s[i..j] + s[j..k] + s[k..]
    ensures |s[..i]| == i && |s[..i] + s[i..j]| == j && |s[..i] + s[i..j] + s[j..k]| == k
  {
  }

  lemma MovedForms(s: seq<Node>, k: nat, i: nat, j: nat)
    requires i <= j <= |s| && k <= |s| && (k <= i || j <= k)
    ensures k <= i ==> Moved(s, k, i, j) == s[..k] + s[i..j] + s[k..i] + s[j..]
    ensures j <= k ==> Moved(s, k, i, j) == s[..i] + s[j..k] + s[i..j] + s[k..]
  {
    hide Moved;
    if k <= i {
      Pieces(s, k, i, j);
      MovedPieces(s[..k], s[k..i], s[i..j], s[j..]);
    }
    if j <= k {
      Pieces(s, i, j, k);
      MovedPieces(s[..i], s[i..j], s[j..k], s[k..]);
    }
  }

  /** The place k lies outside the range of its own list. Right behind it is far enough for one element only. */
  ghost predicate Outside(same: bool, s: seq<Node>, o: seq<Node>, k: nat, i: nat, j: nat) {
    k <= |s| && i <= j <= |o| && (same ==> s == o && (i == j || k < i || j < k || (j == k && i + 1 == j)))
  }

  /** What the list spliced into holds when o[i..t] has been moved; it may be the list spliced from. */
  ghost function Into(same: bool, s: seq<Node>, o: seq<Node>, k: nat, i: nat, t: nat): (m: seq<Node>)
    requires k <= |s| && i <= t <= |o| && (same ==> s == o && (k <= i || t <= k))
  {
    if same then Moved(s, k, i, t) else With(s, k, o[i..t])
  }

  ghost function From(same: bool, s: seq<Node>, o: seq<Node>, k: nat, i: nat, t: nat): (m: seq<Node>)
    requires k <= |s| && i <= t <= |o| && (same ==> s == o && (k <= i || t <= k))
  {
    if same then Moved(s, k, i, t) else Without(o, i, t)
  }

  lemma SpliceNothing(same: bool, s: seq<Node>, o: seq<Node>, k: nat, i: nat)
    requires k <= |s| && i <= |o| && (same ==> s == o)
    ensures Into(same, s, o, k, i, i) == s && From(same, s, o, k, i, i) == o
  {
  }

  /** Where the place to insert at has got to, and the next element. */
  ghost function PosAt(same: bool, k: nat, i: nat, t: nat): (n: nat)
    requires i <= t
  {
    if same && i < k then k else k + (t - i)
  }

  ghost function NextAt(same: bool, k: nat, i: nat, t: nat): (n: nat)
    requires i <= t
  {
    if same && k < i then t else i
  }

  /** From one list to another. */
  lemma StepApart(s: seq<Node>, o: seq<Node>, k: nat, i: nat, t: nat)
    requires k <= |s| && i <= t < |o|
    ensures var m, p := With(s, k, o[i..t]), k + (t - i);
            p <= |m| && With(m, p, [o[t]]) == With(s, k, o[i..t + 1]) && At(m, p) == At(s, k)
    ensures var m := Without(o, i, t);
            i < |m| && m[i] == o[t] && Without(m, i, i + 1) == Without(o, i, t + 1) && At(m, i + 1) == At(o, t + 1)
  {
  }

  /** Within one list, towards its front: c has gone past b, and x follows. */
  lemma StepBackPieces(a: seq<Node>, b: seq<Node>, c: seq<Node>, x: seq<Node>, d: seq<Node>)
    ensures Moved(a + c + b + x + d, |a + c|, |a + c + b|, |a + c + b + x|) == a + (c + x) + b + d
  {
    hide Moved;
    MovedPieces(a + c, b, x, d);
    assert a + c + x + b + d == a + (c + x) + b + d;
  }

  lemma StepBack(s: seq<Node>, k: nat, i: nat, t: nat)
    requires k < i <= t < |s|
    ensures var m, p := Moved(s, k, i, t), k + (t - i);
            p < t && m[t] == s[t] && At(m, t + 1) == At(s, t + 1) && m[p] == s[k] &&
            Moved(m, p, t, t + 1) == Moved(s, k, i, t + 1)
  {
    hide Moved;
    MovedForms(s, k, i, t);
    MovedForms(s, k, i, t + 1);
    var a, b, c, x, d := s[..k], s[k..i], s[i..t], s[t..t + 1], s[t + 1..];
    StepBackPieces(a, b, c, x, d);
    assert s[t..] == x + d && s[i..t + 1] == c + x;
    assert a + c + b + (x + d) == a + c + b + x + d;
  }

  /** Within one list, towards its end: c has gone past b, and x is next. */
  lemma StepOnPieces(a: seq<Node>, x: seq<Node>, b: seq<Node>, c: seq<Node>, d: seq<Node>)
    ensures Moved(a + x + (b + c) + d, |a + x + (b + c)|, |a|, |a + x|) == a + b + (c + x) + d
  {
    hide Moved;
    MovedPieces(a, x, b + c, d);
    assert a + (b + c) + x + d == a + b + (c + x) + d;
  }

  lemma StepOn(s: seq<Node>, k: nat, i: nat, t: nat)
    requires i <= t < k <= |s| && (t + 1 == k ==> t == i)
    ensures var m := Moved(s, k, i, t);
            m[i] == s[t] && At(m, i + 1) == At(s, t + 1) && At(m, k) == At(s, k) &&
            Moved(m, k, i, i + 1) == Moved(s, k, i, t + 1)
  {
    hide Moved;
    MovedForms(s, k, i, t);
    MovedForms(s, k, i, t + 1);
    var a, x, b, c, d := s[..i], s[t..t + 1], s[t + 1..k], s[i..t], s[k..];
    StepOnPieces(a, x, b, c, d);
    assert s[t..k] == x + b && s[i..t + 1] == c + x;
    assert a + (x + b) + c + d == a + x + (b + c) + d;
  }

  /** The next element of o[i..j] moved in front of s[k]. */
  lemma SpliceStep(same: bool, s: seq<Node>, o: seq<Node>, k: nat, i: nat, j: nat, t: nat)
    requires Outside(same, s, o, k, i, j) && i <= t < j
    ensures same ==> k <= i || t + 1 <= k
    ensures var m, p := Into(same, s, o, k, i, t), PosAt(same, k, i, t);
            var f, c := From(same, s, o, k, i, t), NextAt(same, k, i, t);
            Stands(m, At(s, k), p) && c < |f| && f[c] == o[t] && At(f, c + 1) == At(o, t + 1) &&
            (same ==> p != c && m == f) &&
            Into(same, s, o, k, i, t + 1) == Into(same, m, f, p, c, c + 1) &&
            From(same, s, o, k, i, t + 1) == From(same, m, f, p, c, c + 1)
  {
    hide Moved;
    if !same {
      StepApart(s, o, k, i, t);
    } else if k < i {
      StepBack(s, k, i, t);
    } else {
      StepOn(s, k, i, t);
    }
  }

  lemma NoStrangers(s: seq<Node>, o: seq<Node>, k: nat, i: nat, t: nat)
    requires k <= |s| && i <= t <= |o|
    ensures var s' := With(s, k, o[i..t]); forall m :: 0 <= m < |s'| ==> s'[m] in s || s'[m] in o
    ensures var o' := Without(o, i, t); forall m :: 0 <= m < |o'| ==> o'[m] in o
    ensures s == o && (k <= i || t <= k) ==> forall m :: 0 <= m < |s| ==> Moved(s, k, i, t)[m] in s
  {
  }

  /** n turns of the loop when a list's own s[i..k] is spliced in front of s[k]. */
  ghost function Turned(s: seq<Node>, k: nat, i: nat, n: nat): (m: seq<Node>)
    requires i < k <= |s|
    ensures |m| == |s|
    decreases n
  {
    if n == 0 then s else Moved(Turned(s, k, i, n - 1), k, i, i + 1)
  }

  /** With two elements or more that loop never ends: its iterator goes round in the range and does not meet s[k]. */
  lemma {:induction false} SpliceNeverEnds(s: seq<Node>, k: nat, i: nat, n: nat)
    requires Distinct(s) && i + 2 <= k <= |s|
    ensures var m := Turned(s, k, i, n);
            Distinct(m) && At(m, k) == At(s, k) && m[i] != At(s, k) && Turned(s, k, i, n + 1)[i] == m[i + 1]
    decreases n
  {
    hide Moved;
    if n > 0 {
      SpliceNeverEnds(s, k, i, n - 1);
      TurnOnce(Turned(s, k, i, n - 1), k, i);
    }
    TurnOnce(Turned(s, k, i, n), k, i);
  }

  lemma TurnOnce(m: seq<Node>, k: nat, i: nat)
    requires Distinct(m) && i + 2 <= k <= |m|
    ensures var m' := Moved(m, k, i, i + 1);
            Distinct(m') && At(m', k) == At(m, k) && m'[i] == m[i + 1] && m[i] != At(m, k)
  {
    var m' := Moved(m, k, i, i + 1);
    MovedForms(m, k, i, i + 1);
    forall a, b | 0 <= a < b < |m'| ensures m'[a] != m'[b] {
      assert m'[a] == m[if a < i || a >= k then a else if a == k - 1 then i else a + 1];
      assert m'[b] == m[if b < i || b >= k then b else if b == k - 1 then i else b + 1];
    }
  }

  class List {
    var first: Node?
    var last: Node?
    var size: nat
    ghost var nodes: seq<Node>

    ghost predicate Valid()
      reads this, nodes
    {
      Distinct(nodes) && Mirrored(nodes) && size == |nodes| &&
      first == At(nodes, 0) && last == At(nodes, |nodes| - 1)
    }

    constructor ()
      ensures Valid() && nodes == []
    {
      first, last, size, nodes := null, null, 0, [];
    }

    method PushFront(node: Node)
      requires Valid() && node !in nodes && node.prev == null && node.next == null
      modifies this, nodes, node
      ensures Valid() && nodes == [node] + old(nodes)
    {
      if first != null {
        node.next := first;
        first.prev := node;
      } else {
        last := node;
      }
      first := node;
      size := size + 1;
      nodes := [node] + nodes;
    }

    method PushBack(node: Node)
      requires Valid() && node !in nodes && node.prev == null && node.next == null
      modifies this, nodes, node
      ensures Valid() && nodes == old(nodes) + [node]
    {
      if last != null {
        node.prev := last;
        last.next := node;
      } else {
        first := node;
      }
      last := node;
      size := size + 1;
      nodes := nodes + [node];
    }

    method ExtractFront() returns (node: Node)
      requires Valid() && nodes != []
      modifies this, nodes
      ensures Valid() && old(nodes) == [node] + nodes && node.prev == null && node.next == null
    {
      hide Distinct, Mirrored, PrevRight, NextRight;
      ghost var s := nodes;
      assert s[..0] + s[1..] == s[1..];
      size := size - 1;
      nodes := s[1..];
      node := UnlinkFirst(s);
      ExtractDistinct(s, 0);
      ExtractMirrored(s, 0);
    }

    method UnlinkFirst(ghost s: seq<Node>) returns (node: Node)
      requires s != [] && Distinct(s) && Mirrored(s) && first == s[0] && last == s[|s| - 1]
      modifies this`first, this`last, s
      ensures node == s[0] && node.prev == null && node.next == null
      ensures first == At(s, 1) && last == if |s| == 1 then null else s[|s| - 1]
      ensures |s| > 1 ==> s[1].prev == null
      ensures PrevRight(s, 0, 2) && NextRight(s, -1, 1)
    {
      node := first;
      if first == last {
        first, last := null, null;
      } else {
        first := first.next;
        first.prev := null;
      }
      node.next, node.prev := null, null;
    }

    method ExtractBack() returns (node: Node)
      requires Valid() && nodes != []
      modifies this, nodes
      ensures Valid() && old(nodes) == nodes + [node] && node.prev == null && node.next == null
    {
      hide Distinct, Mirrored, PrevRight, NextRight;
      ghost var s := nodes;
      ghost var k := |s| - 1;
      assert s[..k] + s[k + 1..] == s[..k];
      size := size - 1;
      nodes := s[..k];
      node := UnlinkLast(s);
      ExtractDistinct(s, k);
      ExtractMirrored(s, k);
    }

    method UnlinkLast(ghost s: seq<Node>) returns (node: Node)
      requires s != [] && Distinct(s) && Mirrored(s) && first == s[0] && last == s[|s| - 1]
      modifies this`first, this`last, s
      ensures node == s[|s| - 1] && node.prev == null && node.next == null
      ensures last == At(s, |s| - 2) && first == if |s| == 1 then null else s[0]
      ensures |s| > 1 ==> s[|s| - 2].next == null
      ensures PrevRight(s, |s| - 1, |s| + 1) && NextRight(s, |s| - 2, |s|)
    {
      node := last;
      if first == last {
        first, last := null, null;
      } else {
        last := last.prev;
        last.next := null;
      }
      node.next, node.prev := null, null;
    }

    /** The iterator returned stands at the new node. */
    method Insert(pos: Node?, node: Node, ghost k: nat) returns (at: Node)
      requires Valid() && Stands(nodes, pos, k)
      requires node !in nodes && node.prev == null && node.next == null
      modifies this, nodes, node
      ensures Valid() && nodes == With(old(nodes), k, [node]) && at == nodes[k] == node
    {
      if pos == null {
        PushBack(node);
      } else {
        LinkBefore(pos, node, k);
      }
      at := node;
    }

    /** The else branch of insert. */
    method LinkBefore(pos: Node, node: Node, ghost k: nat)
      requires Valid() && k < |nodes| && pos == nodes[k]
      requires node !in nodes && node.prev == null && node.next == null
      modifies this, nodes, node
      ensures Valid() && nodes == With(old(nodes), k, [node])
    {
      hide Distinct, Mirrored, PrevRight, NextRight;
      ghost var s := nodes;
      size := size + 1;
      nodes := s[..k] + [node] + s[k..];
      Relink(pos, node, s, k);
      InsertDistinct(s, k, node);
      InsertMirrored(s, k, node);
    }

    method Relink(pos: Node, node: Node, ghost s: seq<Node>, ghost k: nat)
      requires k < |s| && s[k] == pos && Distinct(s) && Mirrored(s) && node !in s
      modifies this`first, s, node
      ensures node.prev == At(s, k - 1) && node.next == pos && pos.prev == node && (k > 0 ==> s[k - 1].next == node)
      ensures PrevRight(s, k, k + 1) && NextRight(s, k - 1, k)
      ensures first == if k == 0 then node else old(first)
    {
      node.prev := pos.prev;
      node.next := pos;
      if pos.prev != null {
        pos.prev.next := node;
      } else {
        first := node;
      }
      pos.prev := node;
    }

    method Extract(pos: Node, ghost k: nat)
      requires Valid() && k < |nodes| && nodes[k] == pos
      modifies this, nodes
      ensures Valid() && nodes == Without(old(nodes), k, k + 1)
      ensures pos !in nodes && pos.prev == null && pos.next == null
    {
      hide Distinct, Mirrored, PrevRight, NextRight;
      ghost var s := nodes;
      size := size - 1;
      nodes := s[..k] + s[k + 1..];
      Unlink(pos, s, k);
      ExtractDistinct(s, k);
      ExtractMirrored(s, k);
    }

    method Unlink(pos: Node, ghost s: seq<Node>, ghost k: nat)
      requires k < |s| && s[k] == pos && Distinct(s) && Mirrored(s) && first == s[0] && last == s[|s| - 1]
      modifies this`first, this`last, s
      ensures pos.prev == null && pos.next == null
      ensures first == (if k == 0 then At(s, 1) else s[0])
      ensures last == (if k == |s| - 1 then At(s, k - 1) else s[|s| - 1])
      ensures (k > 0 ==> s[k - 1].next == At(s, k + 1)) && (k + 1 < |s| ==> s[k + 1].prev == At(s, k - 1))
      ensures PrevRight(s, k, k + 2) && NextRight(s, k - 1, k + 1)
    {
      if first == last {
        first, last := null, null;
      } else {
        if pos.prev != null {
          pos.prev.next := pos.next;
        } else {
          first := pos.next;
        }
        if pos.next != null {
          pos.next.prev := pos.prev;
        } else {
          last := pos.prev;
        }
      }
      pos.next, pos.prev := null, null;
    }

    /** Returns the iterator after the erased element. */
    method Erase(pos: Node, ghost k: nat) returns (next: Node?)
      requires Valid() && k < |nodes| && nodes[k] == pos
      modifies this, nodes
      ensures Valid() && nodes == Without(old(nodes), k, k + 1)
      ensures next == At(old(nodes), k + 1)
    {
      NextOf(nodes, k);
      next := pos.next;
      Extract(pos, k);
    }

    method EraseRange(from: Node?, to: Node?, ghost i: nat, ghost j: nat) returns (pos: Node?)
      requires Valid() && i <= j && Stands(nodes, from, i) && Stands(nodes, to, j)
      modifies this, nodes
      ensures Valid() && nodes == Without(old(nodes), i, j)
      ensures pos == to
    {
      hide Distinct, Mirrored;
      ghost var s, t := nodes, i;
      pos := from;
      SamePlace(s, t, j);
      while pos != to
        invariant i <= t <= j && Valid() && nodes == s[..i] + s[t..]
        invariant pos == At(s, t) && (pos == to <==> t == j)
        decreases j - t
      {
        pos := Erase(pos, i);
        assert nodes == s[..i] + s[t + 1..];
        t := t + 1;
        SamePlace(s, t, j);
      }
    }

    /** One element moved in front of pos, which is not that element. */
    method SpliceOne(pos: Node?, other: List, it: Node, ghost k: nat, ghost i: nat)
      requires Valid() && other.Valid() && (other == this || Apart(nodes, other.nodes))
      requires Stands(nodes, pos, k) && i < |other.nodes| && other.nodes[i] == it && (other == this ==> k != i)
      modifies this, nodes, other, other.nodes
      ensures Valid() && other.Valid() && (other == this || Apart(nodes, other.nodes))
      ensures nodes == Into(other == this, old(nodes), old(other.nodes), k, i, i + 1)
      ensures other.nodes == From(other == this, old(nodes), old(other.nodes), k, i, i + 1)
    {
      hide Distinct, Mirrored, Into, From, With, Without, Apart;
      ghost var s, o := nodes, other.nodes;
      ghost var k' := if other == this && k > i then k - 1 else k;
      OneElement(other == this, s, o, k, i);
      other.Extract(it, i);
      label Extracted:
      if other != this {
        MirroredKept(s);
      }
      var _ := Insert(pos, it, k');
      if other != this {
        MirroredKept@Extracted(other.nodes);
      }
    }

    /** Moves [from, to) of other in front of pos; other may be this list. */
    method Splice(pos: Node?, other: List, from: Node?, to: Node?, ghost k: nat, ghost i: nat, ghost j: nat)
      requires Valid() && other.Valid() && (other == this || Apart(nodes, other.nodes))
      requires Stands(nodes, pos, k) && Stands(other.nodes, from, i) && Stands(other.nodes, to, j)
      requires Outside(other == this, nodes, other.nodes, k, i, j)
      modifies this, nodes, other, other.nodes
      ensures Valid() && other.Valid() && (other == this || Apart(nodes, other.nodes))
      ensures nodes == Into(other == this, old(nodes), old(other.nodes), k, i, j)
      ensures other.nodes == From(other == this, old(nodes), old(other.nodes), k, i, j)
      ensures multiset(nodes) + multiset(other.nodes) == old(multiset(nodes)) + old(multiset(other.nodes))
    {
      hide Distinct, Mirrored, Apart, With, Without, Moved, Into, From, PosAt, NextAt;
      ghost var s, o, t, same := nodes, other.nodes, i, other == this;
      SpliceNothing(same, s, o, k, i);
      var cursor := from;
      SamePlace(o, t, j);
      while cursor != to
        invariant i <= t <= j && Valid() && other.Valid() && (same ==> k <= i || t <= k)
        invariant nodes == Into(same, s, o, k, i, t) && other.nodes == From(same, s, o, k, i, t)
        invariant cursor == At(o, t) && (cursor == to <==> t == j)
        invariant same || Apart(nodes, other.nodes)
        invariant forall x :: 0 <= x < |nodes| ==> nodes[x] in s || nodes[x] in o
        invariant forall x :: 0 <= x < |other.nodes| ==> other.nodes[x] in s || other.nodes[x] in o
        decreases j - t
      {
        var node := cursor;
        SpliceStep(same, s, o, k, i, j, t);
        NextOf(other.nodes, NextAt(same, k, i, t));
        cursor := cursor.next;
        SpliceOne(pos, other, node, PosAt(same, k, i, t), NextAt(same, k, i, t));
        t := t + 1;
        SplicedNodes(same, s, o, k, i, t);
        SamePlace(o, t, j);
      }
      SpliceConserves(same, s, o, k, i, j);
    }

    /** A list of one element can be moved in front of its own end. */
    method SpliceAll(pos: Node?, other: List, ghost k: nat)
      requires Valid() && other.Valid() && Stands(nodes, pos, k)
      requires if other == this then k == |nodes| <= 1 else Apart(nodes, other.nodes)
      modifies this, nodes, other, other.nodes
      ensures Valid() && other.Valid()
      ensures if other == this then nodes == old(nodes)
              else other.nodes == [] && nodes == With(old(nodes), k, old(other.nodes))
    {
      Splice(pos, other, other.first, null, k, 0, |other.nodes|);
    }

    /** Two places of a list are the same exactly when their indices are. */
    static lemma SamePlace(s: seq<Node>, i: nat, j: nat)
      requires Distinct(s) && i <= j <= |s|
      ensures At(s, i) == At(s, j) <==> i == j
    {
    }

    static lemma NextOf(s: seq<Node>, k: nat)
      requires k < |s| && Mirrored(s)
      ensures s[k].next == At(s, k + 1)
    {
    }

    /** Walks the links from first to null; deleted lists the nodes freed, in order. */
    method Clear() returns (deleted: seq<Node>)
      requires Valid()
      modifies this
      ensures Valid() && nodes == [] && deleted == old(nodes)
    {
      deleted := [];
      var iter := first;
      while iter != null
        invariant |deleted| <= |nodes| && deleted == nodes[..|deleted|] && iter == At(nodes, |deleted|)
        invariant Valid() && nodes == old(nodes)
        decreases |nodes| - |deleted|
      {
        NextOf(nodes, |deleted|);
        var next := iter.next;
        deleted := deleted + [iter];
        iter := next;
      }
      first, last, size, nodes := null, null, 0, [];
    }

    method Swap(other: List)
      requires Valid() && other.Valid()
      modifies this, other
      ensures Valid() && other.Valid() && nodes == old(other.nodes) && other.nodes == old(nodes)
    {
      first, other.first := other.first, first;
      last, other.last := other.last, last;
      size, other.size := other.size, size;
      nodes, other.nodes := other.nodes, nodes;
    }

    /** operator=(intrusive_list&&): frees what was here, then takes other's nodes and leaves it empty. */
    method MoveFrom(other: List) returns (deleted: seq<Node>)
      requires other != this && Valid() && other.Valid()
      modifies this, other
      ensures Valid() && other.Valid() && nodes == old(other.nodes) && other.nodes == [] && deleted == old(nodes)
    {
      deleted := Clear();
      first, last, size := other.first, other.last, other.size;
      nodes := other.nodes;
      other.first, other.last, other.size := null, null, 0;
      other.nodes := [];
    }
  }

  /** A range splice moves elements and neither loses nor copies one. */
  lemma SpliceConserves(same: bool, s: seq<Node>, o: seq<Node>, k: nat, i: nat, j: nat)
    requires k <= |s| && i <= j <= |o| && (same ==> s == o && (k <= i || j <= k))
    ensures multiset(Into(same, s, o, k, i, j)) + multiset(From(same, s, o, k, i, j)) == multiset(s) + multiset(o)
  {
    assert o == o[..i] + o[i..j] + o[j..];
    assert s == s[..k] + s[k..];
    if same {
      MovedConserves(s, k, i, j);
    }
  }

  lemma MovedConserves(s: seq<Node>, k: nat, i: nat, j: nat)
    requires i <= j <= |s| && k <= |s| && (k <= i || j <= k)
    ensures multiset(Moved(s, k, i, j)) == multiset(s)
  {
    hide Moved;
    MovedForms(s, k, i, j);
    if k <= i {
      Pieces(s, k, i, j);
    } else {
      Pieces(s, i, j, k);
    }
  }

  lemma SplicedNodes(same: bool, s: seq<Node>, o: seq<Node>, k: nat, i: nat, t: nat)
    requires k <= |s| && i <= t <= |o| && (same ==> s == o && (k <= i || t <= k))
    ensures var m := Into(same, s, o, k, i, t); forall x :: 0 <= x < |m| ==> m[x] in s || m[x] in o
    ensures var m := From(same, s, o, k, i, t); forall x :: 0 <= x < |m| ==> m[x] in s || m[x] in o
  {
    hide With, Without, Moved;
    NoStrangers(s, o, k, i, t);
  }
}
