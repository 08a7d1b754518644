/** `UnionFind`: weighted quick-union with path halving over the integers
    `[0, n)`. `id[i]` is the parent of `i` (a root is its own parent) and,
    for a root, `sz[r]` is the number of elements in its tree. */
module UnionFind {
  import opened Wrappers

  datatype UF = UF(id: seq<nat>, sz: seq<nat>)

  function Count(uf: UF): nat {
    |uf.id|
  }

  predicate Shape(uf: UF) {
    |uf.sz| == |uf.id| && forall i :: 0 <= i < |uf.id| ==> uf.id[i] < |uf.id|
  }

  function MaxRank(rank: seq<nat>): (m: nat)
    ensures forall i :: 0 <= i < |rank| ==> rank[i] <= m
  {
    if |rank| == 0 then 0
    else
      var m := MaxRank(rank[..|rank| - 1]);
      if rank[|rank| - 1] > m then rank[|rank| - 1] else m
  }

  /** A measure that strictly grows from every non-root to its parent, so
      following parents always reaches a root. */
  ghost predicate RankOk(uf: UF, rank: seq<nat>) {
    && Shape(uf) && |rank| == |uf.id|
    && forall i :: 0 <= i < |uf.id| && uf.id[i] != i ==> rank[i] < rank[uf.id[i]]
  }

  /** The root reached by following parents from `i`. */
  ghost function RootWith(uf: UF, rank: seq<nat>, i: nat): (r: nat)
    requires RankOk(uf, rank) && i < |uf.id|
    ensures r < |uf.id| && uf.id[r] == r && rank[r] >= rank[i]
    ensures uf.id[i] != i ==> rank[r] > rank[i]
    decreases MaxRank(rank) - rank[i]
  {
    if uf.id[i] == i then i else RootWith(uf, rank, uf.id[i])
  }

  /** The root does not depend on which measure witnesses termination. */
  lemma {:induction false} RootIndependent(uf: UF, r1: seq<nat>, r2: seq<nat>, i: nat)
    requires RankOk(uf, r1) && RankOk(uf, r2) && i < |uf.id|
    ensures RootWith(uf, r1, i) == RootWith(uf, r2, i)
    decreases MaxRank(r1) - r1[i]
  {
    if uf.id[i] != i {
      RootIndependent(uf, r1, r2, uf.id[i]);
    }
  }

  ghost predicate Forest(uf: UF) {
    exists rank :: RankOk(uf, rank)
  }

  /** The root of `i`'s tree: what `root(i)` returns. */
  ghost function Find(uf: UF, i: nat): (r: nat)
    requires Forest(uf) && i < |uf.id|
    ensures r < |uf.id| && uf.id[r] == r
  {
    var rank :| RankOk(uf, rank); RootWith(uf, rank, i)
  }

  lemma FindIs(uf: UF, rank: seq<nat>, i: nat)
    requires RankOk(uf, rank) && i < |uf.id|
    ensures Find(uf, i) == RootWith(uf, rank, i)
  {
    var chosen :| RankOk(uf, chosen) && Find(uf, i) == RootWith(uf, chosen, i);
    RootIndependent(uf, chosen, rank, i);
  }

  /** An element is a root exactly when it is its own parent. */
  lemma RootsAreFixed(uf: UF, i: nat)
    requires Forest(uf) && i < |uf.id|
    ensures Find(uf, i) == i <==> uf.id[i] == i
  {
    var rank :| RankOk(uf, rank);
    FindIs(uf, rank, i);
  }

  /** The elements whose root is `r`. */
  ghost function Component(uf: UF, r: nat): set<nat>
    requires Forest(uf)
  {
    set x | 0 <= x < |uf.id| && Find(uf, x) == r
  }

  /** A forest in which every root's `sz` is the size of its tree. */
  ghost predicate Valid(uf: UF) {
    && Forest(uf)
    && forall r :: 0 <= r < |uf.id| && uf.id[r] == r ==> uf.sz[r] == |Component(uf, r)|
  }

  ghost predicate SameRoots(uf: UF, uf': UF)
    requires Forest(uf) && Forest(uf') && |uf.id| == |uf'.id|
  {
    forall x :: 0 <= x < |uf.id| ==> Find(uf', x) == Find(uf, x)
  }

  /** Every element of the components rooted at `a` or `b` now has root
      `w`; every other element keeps its root. */
  ghost predicate Merged(uf: UF, uf': UF, a: nat, b: nat, w: nat)
    requires Forest(uf) && Forest(uf') && |uf.id| == |uf'.id|
  {
    forall x :: 0 <= x < |uf.id| ==>
      Find(uf', x) == if Find(uf, x) == a || Find(uf, x) == b then w else Find(uf, x)
  }

  /** The relation `connected` reports. */
  ghost predicate Joined(uf: UF, x: nat, y: nat)
    requires Forest(uf) && x < |uf.id| && y < |uf.id|
  {
    Find(uf, x) == Find(uf, y)
  }

  // ---------------------------------------------------------------------------
  // Construction

  /** `UnionFind(n)`: without a size it is an error, a size outside
      `[0, 2^32)` is an invalid array length, and otherwise every element is
      its own root. */
  function New(n: Option<int>): (r: Result<UF>)
    ensures n.None? ==> r == Err(MissingSize)
    ensures n.Some? && (n.value < 0 || n.value >= ArrayLengthLimit) ==> r == Err(RangeError)
    ensures n.Some? && 0 <= n.value < ArrayLengthLimit ==>
      && r.Ok? && Valid(r.value) && Count(r.value) == n.value
      && (forall x :: 0 <= x < n.value ==> Find(r.value, x) == x && r.value.sz[x] == 1)
      && forall x, y :: 0 <= x < n.value && 0 <= y < n.value ==> (Joined(r.value, x, y) <==> x == y)
  {
    match n
    case None => Err(MissingSize)
    case Some(k) =>
      if k < 0 || k >= ArrayLengthLimit then Err(RangeError)
      else
        var uf := UF(seq(k, i requires 0 <= i < k => i), seq(k, i requires 0 <= i < k => 1));
        Singletons(uf);
        Ok(uf)
  }

  lemma Singletons(uf: UF)
    requires Shape(uf) && forall i :: 0 <= i < |uf.id| ==> uf.id[i] == i && uf.sz[i] == 1
    ensures Valid(uf) && forall x :: 0 <= x < |uf.id| ==> Find(uf, x) == x
  {
    var rank := seq(|uf.id|, i requires 0 <= i < |uf.id| => 0);
    assert RankOk(uf, rank);
    forall r | 0 <= r < |uf.id|
      ensures Find(uf, r) == r && uf.sz[r] == |Component(uf, r)|
    {
      FindIs(uf, rank, r);
      forall x | x in Component(uf, r) ensures x == r {
        FindIs(uf, rank, x);
      }
      assert Component(uf, r) == {r};
    }
  }

  // ---------------------------------------------------------------------------
  // root, with path halving

  /** Pointing `r` at its grandparent keeps the measure valid and changes no root. */
  lemma Halve(uf: UF, rank: seq<nat>, r: nat)
    requires RankOk(uf, rank) && r < |uf.id|
    ensures RankOk(UF(uf.id[r := uf.id[uf.id[r]]], uf.sz), rank)
    ensures forall x :: 0 <= x < |uf.id| ==>
      RootWith(UF(uf.id[r := uf.id[uf.id[r]]], uf.sz), rank, x) == RootWith(uf, rank, x)
  {
    var uf' := UF(uf.id[r := uf.id[uf.id[r]]], uf.sz);
    forall x | 0 <= x < |uf.id|
      ensures RootWith(uf', rank, x) == RootWith(uf, rank, x)
    {
      HalveRoot(uf, rank, r, x);
    }
  }

  lemma {:induction false} HalveRoot(uf: UF, rank: seq<nat>, r: nat, x: nat)
    requires RankOk(uf, rank) && r < |uf.id| && x < |uf.id|
    ensures RankOk(UF(uf.id[r := uf.id[uf.id[r]]], uf.sz), rank)
    ensures RootWith(UF(uf.id[r := uf.id[uf.id[r]]], uf.sz), rank, x) == RootWith(uf, rank, x)
    decreases MaxRank(rank) - rank[x]
  {
    var uf' := UF(uf.id[r := uf.id[uf.id[r]]], uf.sz);
    if uf.id[x] != x {
      HalveRoot(uf, rank, r, uf.id[x]);
      if x == r {
        HalveRoot(uf, rank, r, uf.id[uf.id[r]]);
      }
    }
  }

  /** `root(p)`: follows parents to the root, pointing each visited node at
      its grandparent on the way. No element changes root and no size
      changes. */
  method Root(uf: UF, p: nat) returns (uf': UF, r: nat)
    requires Valid(uf) && p < Count(uf)
    ensures Valid(uf') && uf'.sz == uf.sz && Count(uf') == Count(uf)
    ensures r == Find(uf, p) && uf'.id[r] == r
    ensures SameRoots(uf, uf')
  {
    ghost var rank :| RankOk(uf, rank);
    var id := uf.id;
    r := id[p];
    while r != id[r]
      invariant |id| == |uf.id| && r < |id|
      invariant RankOk(UF(id, uf.sz), rank)
      invariant forall x :: 0 <= x < |id| ==> RootWith(UF(id, uf.sz), rank, x) == RootWith(uf, rank, x)
      invariant RootWith(UF(id, uf.sz), rank, r) == RootWith(uf, rank, p)
      decreases MaxRank(rank) - rank[r]
    {
      Halve(UF(id, uf.sz), rank, r);
      id := id[r := id[id[r]]];
      r := id[r];
    }
    uf' := UF(id, uf.sz);
    FindIs(uf, rank, p);
    forall x | 0 <= x < |id|
      ensures Find(uf', x) == Find(uf, x)
    {
      FindIs(uf, rank, x);
      FindIs(uf', rank, x);
    }
    KeepsSizes(uf, uf');
  }

  /** Two forests with the same roots everywhere and the same sizes agree on
      every component size. */
  lemma KeepsSizes(uf: UF, uf': UF)
    requires Valid(uf) && Forest(uf') && |uf'.id| == |uf.id| && uf'.sz == uf.sz
    requires SameRoots(uf, uf')
    ensures Valid(uf')
  {
    forall r | 0 <= r < |uf.id| && uf'.id[r] == r
      ensures uf'.sz[r] == |Component(uf', r)|
    {
      RootsAreFixed(uf, r);
      RootsAreFixed(uf', r);
      assert Component(uf', r) == Component(uf, r);
    }
  }

  // ---------------------------------------------------------------------------
  // union

  /** Linking root `a` under root `b`: `a`'s parent becomes `b` and `b`'s
      size absorbs `a`'s; for distinct roots `a`'s tree joins `b`'s, and
      nothing else moves. */
  function Link(uf: UF, a: nat, b: nat): (r: UF)
    requires Shape(uf) && a < |uf.id| && b < |uf.id|
    ensures Shape(r) && |r.id| == |uf.id|
    ensures r.id[a] == b && forall x :: 0 <= x < |uf.id| && x != a ==> r.id[x] == uf.id[x]
    ensures a != b ==> r.sz[b] == uf.sz[a] + uf.sz[b] && r.sz[a] == uf.sz[a]
    ensures forall x :: 0 <= x < |uf.id| && x != b ==> r.sz[x] == uf.sz[x]
  {
    UF(uf.id[a := b], uf.sz[b := uf.sz[b] + uf.sz[a]])
  }

  lemma {:induction false} LinkRoot(uf: UF, rank: seq<nat>, a: nat, b: nat, x: nat)
    requires RankOk(uf, rank) && a < |uf.id| && b < |uf.id| && x < |uf.id|
    requires uf.id[a] == a && uf.id[b] == b && a != b
    ensures var rank' := rank[b := if rank[b] > rank[a] then rank[b] else rank[a] + 1];
      && RankOk(Link(uf, a, b), rank')
      && RootWith(Link(uf, a, b), rank', x) ==
         if RootWith(uf, rank, x) == a then b else RootWith(uf, rank, x)
    decreases MaxRank(rank) - rank[x]
  {
    var rank' := rank[b := if rank[b] > rank[a] then rank[b] else rank[a] + 1];
    var uf' := Link(uf, a, b);
    assert RankOk(uf', rank');
    if uf.id[x] != x {
      LinkRoot(uf, rank, a, b, uf.id[x]);
    } else if x == a {
      assert uf'.id[a] == b && uf'.id[b] == b;
    }
  }

  /** Linking distinct roots `a` under `b` merges exactly their two
      components, with `b`'s size the sum of both. */
  lemma LinkMerges(uf: UF, a: nat, b: nat)
    requires Valid(uf) && a < |uf.id| && b < |uf.id|
    requires uf.id[a] == a && uf.id[b] == b && a != b
    ensures Valid(Link(uf, a, b))
    ensures forall x :: 0 <= x < |uf.id| ==>
      Find(Link(uf, a, b), x) == if Find(uf, x) == a then b else Find(uf, x)
  {
    var rank :| RankOk(uf, rank);
    var rank' := rank[b := if rank[b] > rank[a] then rank[b] else rank[a] + 1];
    var uf' := Link(uf, a, b);
    LinkRoot(uf, rank, a, b, a);
    forall x | 0 <= x < |uf.id|
      ensures Find(uf', x) == if Find(uf, x) == a then b else Find(uf, x)
    {
      LinkRoot(uf, rank, a, b, x);
      FindIs(uf, rank, x);
      FindIs(uf', rank', x);
    }
    LinkSizes(uf, uf', a, b);
  }

  lemma LinkSizes(uf: UF, uf': UF, a: nat, b: nat)
    requires Valid(uf) && a < |uf.id| && b < |uf.id|
    requires uf.id[a] == a && uf.id[b] == b && a != b
    requires uf' == Link(uf, a, b) && Forest(uf')
    requires forall x :: 0 <= x < |uf.id| ==> Find(uf', x) == if Find(uf, x) == a then b else Find(uf, x)
    ensures Valid(uf')
  {
    forall r | 0 <= r < |uf.id| && uf'.id[r] == r
      ensures uf'.sz[r] == |Component(uf', r)|
    {
      RootsAreFixed(uf, r);
      RootsAreFixed(uf, a);
      RootsAreFixed(uf, b);
      if r == b {
        assert Component(uf', b) == Component(uf, a) + Component(uf, b);
        assert Component(uf, a) * Component(uf, b) == {};
      } else {
        assert Component(uf', r) == Component(uf, r);
      }
    }
  }

  /** The body of `union` on two elements: both roots are found (halving
      their paths); if they differ, the root of the smaller tree is linked
      under the other, `q`'s under `p`'s on a tie. `w` is the surviving root. */
  method UnionRoots(uf: UF, p: nat, q: nat) returns (uf': UF, w: nat)
    requires Valid(uf) && p < Count(uf) && q < Count(uf)
    ensures Valid(uf') && Count(uf') == Count(uf)
    ensures var a, b := Find(uf, p), Find(uf, q);
      && (w == a || w == b)
      && (a == b ==> SameRoots(uf, uf') && uf'.sz == uf.sz)
      && (a != b ==>
            && w == (if uf.sz[a] < uf.sz[b] then b else a)
            && uf'.sz[w] == uf.sz[a] + uf.sz[b] && Merged(uf, uf', a, b, w))
  {
    var uf1, rP := Root(uf, p);
    var uf2, rQ := Root(uf1, q);
    if rP == rQ {
      uf' := uf2;
    } else if uf2.sz[rP] < uf2.sz[rQ] {
      uf' := Link(uf2, rP, rQ);
      LinkMerges(uf2, rP, rQ);
    } else {
      uf' := Link(uf2, rQ, rP);
      LinkMerges(uf2, rQ, rP);
    }
    w := if rP == rQ || uf2.sz[rP] >= uf2.sz[rQ] then rP else rQ;
  }

  /** `union(p, q)`: a non-numeric argument is an error. Otherwise the two
      components are merged, the smaller under the larger, and nothing else
      is joined. */
  method Union(uf: UF, p: Option<int>, q: Option<int>) returns (uf': UF, r: Result<()>)
    requires Valid(uf)
    requires p.Some? && q.Some? ==> 0 <= p.value < Count(uf) && 0 <= q.value < Count(uf)
    ensures p.None? || q.None? ==> uf' == uf && r == Err(InvalidParameter)
    ensures p.Some? && q.Some? ==>
      && r.Ok? && Valid(uf') && Count(uf') == Count(uf)
      && var a, b := Find(uf, p.value), Find(uf, q.value);
      && Find(uf', p.value) == Find(uf', q.value)
      && (a == b ==> SameRoots(uf, uf') && uf'.sz == uf.sz)
      && (a != b ==>
            var w := if uf.sz[a] < uf.sz[b] then b else a;
            uf'.sz[w] == uf.sz[a] + uf.sz[b] && Merged(uf, uf', a, b, w))
      && forall x, y :: 0 <= x < Count(uf) && 0 <= y < Count(uf) ==>
           (Joined(uf', x, y) <==>
              || Joined(uf, x, y)
              || (Joined(uf, x, p.value) && Joined(uf, y, q.value))
              || (Joined(uf, x, q.value) && Joined(uf, y, p.value)))
  {
    if p.None? || q.None? {
      return uf, Err(InvalidParameter);
    }
    var w;
    uf', w := UnionRoots(uf, p.value, q.value);
    r := Ok(());
    UnionJoinsAll(uf, uf', p.value, q.value, w);
  }

  /** A second `union(p, q)` changes no root and no size: union is idempotent. */
  method UnionTwice(uf: UF, p: nat, q: nat) returns (uf1: UF, uf2: UF)
    requires Valid(uf) && p < Count(uf) && q < Count(uf)
    ensures Valid(uf1) && Valid(uf2) && Count(uf1) == Count(uf) && Count(uf2) == Count(uf)
    ensures Joined(uf1, p, q) && SameRoots(uf1, uf2) && uf2.sz == uf1.sz
  {
    var r;
    uf1, r := Union(uf, Some(p), Some(q));
    uf2, r := Union(uf1, Some(p), Some(q));
  }

  /** `connected(p, q)`: a non-numeric argument is an error; otherwise
      whether both have the same root. Only paths are halved. */
  method Connected(uf: UF, p: Option<int>, q: Option<int>) returns (uf': UF, r: Result<bool>)
    requires Valid(uf)
    requires p.Some? && q.Some? ==> 0 <= p.value < Count(uf) && 0 <= q.value < Count(uf)
    ensures p.None? || q.None? ==> uf' == uf && r == Err(InvalidParameter)
    ensures p.Some? && q.Some? ==>
      && Valid(uf') && Count(uf') == Count(uf) && uf'.sz == uf.sz && SameRoots(uf, uf')
      && r == Ok(Find(uf, p.value) == Find(uf, q.value))
  {
    if p.None? || q.None? {
      return uf, Err(InvalidParameter);
    }
    var uf1, rP := Root(uf, p.value);
    var rQ;
    uf', rQ := Root(uf1, q.value);
    r := Ok(rP == rQ);
  }

  // ---------------------------------------------------------------------------
  // Connectivity

  /** Merging the components of `p` and `q` joins exactly the pairs that
      were joined, or that had one element with `p` and the other with `q`. */
  lemma UnionJoins(uf: UF, uf': UF, p: nat, q: nat, w: nat, x: nat, y: nat)
    requires Valid(uf) && Valid(uf') && Count(uf') == Count(uf)
    requires p < Count(uf) && q < Count(uf) && x < Count(uf) && y < Count(uf)
    requires var a, b := Find(uf, p), Find(uf, q);
      || (a == b && SameRoots(uf, uf'))
      || (a != b && (w == a || w == b) && Merged(uf, uf', a, b, w))
    ensures Joined(uf', x, y) <==>
      || Joined(uf, x, y)
      || (Joined(uf, x, p) && Joined(uf, y, q))
      || (Joined(uf, x, q) && Joined(uf, y, p))
  {
  }

  lemma UnionJoinsAll(uf: UF, uf': UF, p: nat, q: nat, w: nat)
    requires Valid(uf) && Valid(uf') && Count(uf') == Count(uf)
    requires p < Count(uf) && q < Count(uf)
    requires var a, b := Find(uf, p), Find(uf, q);
      || (a == b && SameRoots(uf, uf'))
      || (a != b && (w == a || w == b) && Merged(uf, uf', a, b, w))
    ensures Joined(uf', p, q)
    ensures forall x, y :: 0 <= x < Count(uf) && 0 <= y < Count(uf) ==>
      (Joined(uf', x, y) <==>
         || Joined(uf, x, y)
         || (Joined(uf, x, p) && Joined(uf, y, q))
         || (Joined(uf, x, q) && Joined(uf, y, p)))
  {
    forall x, y | 0 <= x < Count(uf) && 0 <= y < Count(uf)
      ensures Joined(uf', x, y) <==>
        || Joined(uf, x, y)
        || (Joined(uf, x, p) && Joined(uf, y, q))
        || (Joined(uf, x, q) && Joined(uf, y, p))
    {
      UnionJoins(uf, uf', p, q, w, x, y);
    }
    UnionJoins(uf, uf', p, q, w, p, q);
  }
}
