/** Run-length local types, src/ir.h and src/ir.cc: every view of the runs agrees with the flat vector. */
module LocalTypes {

  datatype Type = I32 | I64 | F32 | F64 | V128 | Funcref | Anyref | Nullref | Exnref | Any

  /** A run: `count` locals of one type. */
  datatype Decl = Decl(ty: Type, count: nat)

  function Repeat(ty: Type, n: nat): (s: seq<Type>)
    ensures |s| == n && forall i :: 0 <= i < n ==> s[i] == ty
  {
    seq(n, _ => ty)
  }

  /** The flat vector a list of runs stands for. */
  function Expand(decls: seq<Decl>): (s: seq<Type>) {
    if decls == [] then [] else Repeat(decls[0].ty, decls[0].count) + Expand(decls[1..])
  }

  predicate Positive(decls: seq<Decl>) {
    forall d :: d in decls ==> d.count > 0
  }

  /** Neighbouring runs have different types and none is empty. */
  predicate Canonical(decls: seq<Decl>) {
    Positive(decls) && forall i :: 0 <= i < |decls| - 1 ==> decls[i].ty != decls[i + 1].ty
  }

  lemma {:induction false} ExpandAppend(a: seq<Decl>, b: seq<Decl>)
    ensures Expand(a + b) == Expand(a) + Expand(b)
  {
    if a == [] {
      assert a + b == b;
    } else {
      assert (a + b)[1..] == a[1..] + b;
      ExpandAppend(a[1..], b);
    }
  }

  lemma ExpandEmpty()
    ensures Expand([]) == []
  {
  }

  lemma ExpandLast(a: seq<Decl>, d: Decl)
    ensures Expand(a + [d]) == Expand(a) + Repeat(d.ty, d.count)
  {
    ExpandAppend(a, [d]);
    assert Expand([d]) == Repeat(d.ty, d.count) + Expand([]);
  }

  /** Position of a const_iterator: which run, and how far into it. */
  datatype Iterator = Iterator(decl: nat, index: nat)

  class LocalTypes {
    var decls: seq<Decl>

    constructor ()
      ensures decls == []
    {
      decls := [];
    }

    method Set(types: seq<Type>)
      modifies this
      ensures Expand(decls) == types && Canonical(decls)
    {
      decls := [];
      if types == [] {
        return;
      }
      var ty, count := types[0], 1;
      for i := 1 to |types|
        invariant count >= 1 && types[i - 1] == ty
        invariant Expand(decls) + Repeat(ty, count) == types[..i]
        invariant Canonical(decls) && (decls != [] ==> decls[|decls| - 1].ty != ty)
      {
        ghost var before := decls;
        assert types[..i + 1] == types[..i] + [types[i]];
        if types[i] != ty {
          decls := decls + [Decl(ty, count)];
          ExpandLast(before, Decl(ty, count));
          ty := types[i];
          count := 1;
        } else {
          count := count + 1;
          assert Repeat(ty, count) == Repeat(ty, count - 1) + [ty];
        }
      }
      ExpandLast(decls, Decl(ty, count));
      decls := decls + [Decl(ty, count)];
    }

    method AppendDecl(ty: Type, count: nat)
      modifies this
      ensures Expand(decls) == old(Expand(decls)) + Repeat(ty, count)
      ensures old(Positive(decls)) ==> Positive(decls)
    {
      if count != 0 {
        ExpandLast(decls, Decl(ty, count));
        decls := decls + [Decl(ty, count)];
      }
    }

    /** The fold of size(). */
    function Size(): (n: nat)
      reads this
      ensures n == |Expand(decls)|
    {
      SumCounts(decls)
    }

    method At(i: nat) returns (ty: Type)
      ensures ty == if i < |Expand(decls)| then Expand(decls)[i] else Any
    {
      hide Expand;
      ExpandEmpty();
      var count := 0;
      for k := 0 to |decls|
        invariant count == |Expand(decls[..k])| <= i
      {
        var decl := decls[k];
        assert decls[..k + 1] == decls[..k] + [decl];
        ExpandLast(decls[..k], decl);
        ExpandAppend(decls[..k + 1], decls[k + 1..]);
        assert decls == decls[..k + 1] + decls[k + 1..];
        if i < count + decl.count {
          return decl.ty;
        }
        count := count + decl.count;
      }
      assert decls[..|decls|] == decls;
      ty := Any;
    }
  }

  function SumCounts(decls: seq<Decl>): (n: nat)
    ensures n == |Expand(decls)|
  {
    if decls == [] then 0 else decls[0].count + SumCounts(decls[1..])
  }

  // ---------------------------------------------------------------- iteration

  /** operator++ */
  function Next(decls: seq<Decl>, it: Iterator): (r: Iterator)
    requires it.decl < |decls|
  {
    if it.index + 1 >= decls[it.decl].count then Iterator(it.decl + 1, 0) else Iterator(it.decl, it.index + 1)
  }

  /** What a range-for visits from `it` up to end(), which is (|decls|, 0). */
  function Visit(decls: seq<Decl>, it: Iterator): (s: seq<Type>)
    decreases |decls| - it.decl, if it.decl < |decls| then decls[it.decl].count - it.index else 0
  {
    if it.decl >= |decls| then [] else [decls[it.decl].ty] + Visit(decls, Next(decls, it))
  }

  lemma {:induction false} VisitFrom(decls: seq<Decl>, it: Iterator)
    requires Positive(decls) && it.decl <= |decls|
    requires if it.decl < |decls| then it.index < decls[it.decl].count else it.index == 0
    ensures Visit(decls, it) == Expand(decls[it.decl..])[it.index..]
    decreases |decls| - it.decl, if it.decl < |decls| then decls[it.decl].count - it.index else 0
  {
    if it.decl < |decls| {
      var d, rest := decls[it.decl], decls[it.decl + 1..];
      assert decls[it.decl..] == [d] + rest;
      assert Expand(decls[it.decl..]) == Repeat(d.ty, d.count) + Expand(rest);
      if it.index + 1 >= d.count && it.decl + 1 < |decls| {
        assert decls[it.decl + 1] in decls;
      }
      VisitFrom(decls, Next(decls, it));
    }
  }

  /** Iterating from begin() to end() yields the flat vector, as long as no run is empty, which is what
      Set and AppendDecl guarantee. */
  lemma IterationMatches(decls: seq<Decl>)
    requires Positive(decls)
    ensures Visit(decls, Iterator(0, 0)) == Expand(decls)
  {
    if decls != [] {
      assert decls[0] in decls;
    }
    VisitFrom(decls, Iterator(0, 0));
  }

  /** Set's runs are the only canonical ones for their vector. */
  lemma {:induction false} CanonicalUnique(a: seq<Decl>, b: seq<Decl>)
    requires Canonical(a) && Canonical(b) && Expand(a) == Expand(b)
    ensures a == b
  {
    if a != [] && b != [] {
      assert a[0] in a && b[0] in b;
      FirstRun(a);
      FirstRun(b);
      assert a[0].ty == Expand(a)[0] == b[0].ty;
      assert a[0].count == b[0].count;
      assert Expand(a[1..]) == Expand(a)[a[0].count..] && Expand(b[1..]) == Expand(b)[b[0].count..];
      CanonicalUnique(a[1..], b[1..]);
      assert a == [a[0]] + a[1..] && b == [b[0]] + b[1..];
    }
  }

  /** The first run is maximal. */
  lemma FirstRun(a: seq<Decl>)
    requires a != [] && Canonical(a)
    ensures a[0].count > 0 && |Expand(a)| >= a[0].count
    ensures forall i :: 0 <= i < a[0].count ==> Expand(a)[i] == a[0].ty
    ensures |Expand(a)| > a[0].count ==> Expand(a)[a[0].count] != a[0].ty
  {
    assert a[0] in a;
    if |a| > 1 {
      assert a[1] in a;
      assert a[1..][0] == a[1];
      assert Expand(a[1..]) == Repeat(a[1].ty, a[1].count) + Expand(a[1..][1..]);
    }
  }

  /** Func::GetLocalType: parameters first, then locals. */
  method GetLocalType(params: seq<Type>, locals: LocalTypes, index: nat) returns (ty: Type)
    requires index < |params| + |Expand(locals.decls)|
    ensures ty == (params + Expand(locals.decls))[index]
  {
    if index < |params| {
      ty := params[index];
    } else {
      ty := locals.At(index - |params|);
    }
  }
}
