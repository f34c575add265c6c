/**
 * The buddy system of the page allocator, without its bitmap: a complete binary tree
 * whose node `p` of order `o` stands for the pages `p * 2^o .. (p + 1) * 2^o`, with a
 * flag per node that says whether the node is available.
 */
module Buddy {
  function Pow2(n: nat): (r: nat)
    ensures r >= 1
  {
    if n == 0 then 1 else 2 * Pow2(n - 1)
  }

  /** The node `n` levels above position `p`. */
  function Up(p: nat, n: nat): nat {
    if n == 0 then p else Up(p / 2, n - 1)
  }

  /** The buddy of a position. */
  function Sibling(p: nat): nat {
    if p % 2 == 0 then p + 1 else p - 1
  }

  /** One row of flags per order. */
  type Rows = seq<seq<bool>>

  ghost predicate Shaped(r: Rows, m: nat) {
    |r| == m + 1 && forall o :: 0 <= o <= m ==> |r[o]| == Pow2(m - o)
  }

  predicate At(r: Rows, o: nat, p: nat) {
    o < |r| && p < |r[o]| && r[o][p]
  }

  function Put(r: Rows, o: nat, p: nat, flag: bool): Rows
    requires o < |r| && p < |r[o]|
  {
    r[o := r[o][p := flag]]
  }

  /** No available node lies below another one. */
  ghost predicate Nested(r: Rows) {
    forall o: nat, p: nat, o': nat, p': nat :: At(r, o, p) && At(r, o', p') && o < o' ==> Up(p, o' - o) != p'
  }

  /** No two buddies are available, except perhaps `p` of order `o` and its buddy. */
  ghost predicate NoTwinsBut(r: Rows, o: nat, p: nat) {
    forall a: nat, q: nat :: At(r, a, q) && At(r, a, Sibling(q)) ==> a == o && (q == p || q == Sibling(p))
  }

  ghost predicate NoTwins(r: Rows) {
    forall a: nat, q: nat :: At(r, a, q) ==> !At(r, a, Sibling(q))
  }

  /** What every operation keeps: the available nodes tile the free pages, as coarsely as possible. */
  ghost predicate Tiling(r: Rows, m: nat) {
    Shaped(r, m) && Nested(r) && NoTwins(r)
  }

  /** A page is free when the node of some order above it is available. */
  ghost predicate Free(r: Rows, x: nat) {
    exists o: nat :: At(r, o, Up(x, o))
  }

  // ---------------------------------------------------------------- positions

  lemma {:induction false} UpUp(p: nat, a: nat, b: nat)
    ensures Up(Up(p, a), b) == Up(p, a + b)
  {
    if a > 0 {
      UpUp(p / 2, a - 1, b);
    }
  }

  lemma UpNext(p: nat, n: nat)
    ensures Up(p, n + 1) == Up(p, n) / 2
  {
    UpUp(p, n, 1);
    assert Up(Up(p, n), 1) == Up(Up(p, n) / 2, 0);
  }

  /** The pages under node `p` of order `n`. */
  lemma {:induction false} UpRange(x: nat, n: nat, p: nat)
    ensures Up(x, n) == p <==> p * Pow2(n) <= x < (p + 1) * Pow2(n)
  {
    if n > 0 {
      UpRange(x / 2, n - 1, p);
      var w := Pow2(n - 1);
      assert p * Pow2(n) == 2 * (p * w) && (p + 1) * Pow2(n) == 2 * ((p + 1) * w);
    }
  }

  lemma FirstPage(o: nat, p: nat) returns (x: nat)
    ensures Up(x, o) == p && x == p * Pow2(o)
  {
    x := p * Pow2(o);
    assert (p + 1) * Pow2(o) == x + Pow2(o);
    UpRange(x, o, p);
  }

  lemma SiblingFacts(p: nat)
    ensures Sibling(Sibling(p)) == p && Sibling(p) != p && Sibling(p) / 2 == p / 2
    ensures forall q: nat :: q / 2 == p / 2 <==> q == p || q == Sibling(p)
  {
  }

  // --------------------------------------------------------------- elementary steps

  lemma PutShaped(r: Rows, m: nat, o: nat, p: nat, flag: bool)
    requires Shaped(r, m) && o <= m && p < Pow2(m - o)
    ensures Shaped(Put(r, o, p, flag), m)
    ensures forall a: nat, q: nat :: At(Put(r, o, p, flag), a, q) <==> if a == o && q == p then flag else At(r, a, q)
  {
    var r' := Put(r, o, p, flag);
    forall a: nat, q: nat ensures At(r', a, q) <==> if a == o && q == p then flag else At(r, a, q) {
    }
  }

  /** Making a node available none of whose pages is free frees exactly its pages. */
  lemma SetNode(r: Rows, m: nat, o: nat, p: nat)
    requires Shaped(r, m) && Nested(r) && NoTwins(r) && o <= m && p < Pow2(m - o)
    requires forall x: nat :: Up(x, o) == p ==> !Free(r, x)
    ensures var r' := Put(r, o, p, true);
      && Shaped(r', m) && Nested(r') && NoTwinsBut(r', o, p)
      && (forall x: nat :: Free(r', x) <==> Free(r, x) || Up(x, o) == p)
      && !At(r, o, p)
  {
    var r' := Put(r, o, p, true);
    PutShaped(r, m, o, p, true);
    var x0 := FirstPage(o, p);
    assert !Free(r, x0);
    SetNested(r, r', o, p);
    SiblingFacts(p);
    assert NoTwinsBut(r', o, p) by {
      forall a: nat, q: nat | At(r', a, q) && At(r', a, Sibling(q)) ensures a == o && (q == p || q == Sibling(p)) {
        SiblingFacts(q);
      }
    }
    FreeSet(r, r', o, p);
  }

  lemma SetNested(r: Rows, r': Rows, o: nat, p: nat)
    requires Nested(r) && forall a: nat, q: nat :: At(r', a, q) <==> (a == o && q == p) || At(r, a, q)
    requires forall x: nat :: Up(x, o) == p ==> !Free(r, x)
    ensures Nested(r')
  {
    forall a: nat, q: nat, a': nat, q': nat | At(r', a, q) && At(r', a', q') && a < a' ensures Up(q, a' - a) != q' {
      if a == o && q == p {
        var x := FirstPage(o, p);
        UpUp(x, o, a' - o);
        assert !At(r, a', Up(x, a'));
      } else if a' == o && q' == p {
        var x := FirstPage(a, q);
        UpUp(x, a, o - a);
        assert At(r, a, Up(x, a));
      }
    }
  }

  lemma FreeSet(r: Rows, r': Rows, o: nat, p: nat)
    requires forall a: nat, q: nat :: At(r', a, q) <==> (a == o && q == p) || At(r, a, q)
    ensures forall x: nat :: Free(r', x) <==> Free(r, x) || Up(x, o) == p
  {
    forall x: nat ensures Free(r', x) <==> Free(r, x) || Up(x, o) == p {
      if Free(r, x) {
        var a: nat :| At(r, a, Up(x, a));
        assert At(r', a, Up(x, a));
      }
      if Up(x, o) == p {
        assert At(r', o, Up(x, o));
      }
    }
  }

  /** A free page has one available node above it. */
  lemma OneOrder(r: Rows, x: nat, a: nat, b: nat)
    requires Nested(r) && At(r, a, Up(x, a)) && At(r, b, Up(x, b))
    ensures a == b
  {
    UpUp(x, if a < b then a else b, if a < b then b - a else a - b);
  }

  /** Clearing an available node takes away exactly its pages. */
  lemma ClearNode(r: Rows, m: nat, o: nat, p: nat)
    requires Shaped(r, m) && Nested(r) && At(r, o, p)
    ensures var r' := Put(r, o, p, false);
      && Shaped(r', m) && Nested(r')
      && (forall x: nat :: Free(r', x) <==> Free(r, x) && Up(x, o) != p)
      && (NoTwinsBut(r, o, p) ==> NoTwins(r'))
  {
    var r' := Put(r, o, p, false);
    PutShaped(r, m, o, p, false);
    forall x: nat ensures Free(r', x) <==> Free(r, x) && Up(x, o) != p {
      if Free(r, x) && Up(x, o) != p {
        var a: nat :| At(r, a, Up(x, a));
        assert At(r', a, Up(x, a));
      }
      if Free(r', x) {
        var a: nat :| At(r', a, Up(x, a));
        assert At(r, a, Up(x, a));
        if Up(x, o) == p {
          OneOrder(r, x, a, o);
        }
      }
    }
    if NoTwinsBut(r, o, p) {
      forall a: nat, q: nat | At(r', a, q) ensures !At(r', a, Sibling(q)) {
        SiblingFacts(q);
        SiblingFacts(p);
      }
    }
  }

  /** Two available buddies are replaced by their parent: no page changes. */
  function Joined(r: Rows, o: nat, p: nat): Rows
    requires o + 1 < |r| && p < |r[o]| && Sibling(p) < |r[o]| && p / 2 < |r[o + 1]|
  {
    Put(Put(Put(r, o, p, false), o, Sibling(p), false), o + 1, p / 2, true)
  }

  lemma JoinAt(r: Rows, m: nat, o: nat, p: nat)
    requires Shaped(r, m) && At(r, o, p) && At(r, o, Sibling(p))
    ensures o < m && p / 2 < Pow2(m - o - 1)
    ensures Shaped(Joined(r, o, p), m)
    ensures forall a: nat, q: nat :: At(Joined(r, o, p), a, q) <==>
      if a == o && (q == p || q == Sibling(p)) then false else (a == o + 1 && q == p / 2) || At(r, a, q)
  {
    SiblingFacts(p);
    assert o <= m && p < Pow2(m - o) && Sibling(p) < Pow2(m - o);
    assert o < m by {
      assert Pow2(0) == 1;
    }
    var r1 := Put(r, o, p, false);
    PutShaped(r, m, o, p, false);
    var r2 := Put(r1, o, Sibling(p), false);
    PutShaped(r1, m, o, Sibling(p), false);
    PutShaped(r2, m, o + 1, p / 2, true);
  }

  lemma JoinNodes(r: Rows, m: nat, o: nat, p: nat)
    requires Shaped(r, m) && Nested(r) && NoTwinsBut(r, o, p) && At(r, o, p) && At(r, o, Sibling(p))
    ensures o < m && p / 2 < Pow2(m - o - 1)
    ensures var r' := Joined(r, o, p);
      && Shaped(r', m) && Nested(r') && NoTwinsBut(r', o + 1, p / 2)
      && (forall x: nat :: Free(r', x) <==> Free(r, x))
      && !At(r, o + 1, p / 2)
  {
    var r' := Joined(r, o, p);
    SiblingFacts(p);
    JoinAt(r, m, o, p);
    assert !At(r, o + 1, p / 2) by {
      assert Up(p, 1) == Up(p / 2, 0);
    }
    JoinNested(r, r', o, p);
    JoinFree(r, r', o, p);
    forall a: nat, q: nat | At(r', a, q) && At(r', a, Sibling(q))
      ensures a == o + 1 && (q == p / 2 || q == Sibling(p / 2))
    {
      SiblingFacts(q);
    }
  }

  lemma JoinNested(r: Rows, r': Rows, o: nat, p: nat)
    requires Nested(r) && At(r, o, p) && At(r, o, Sibling(p))
    requires forall a: nat, q: nat :: At(r', a, q) <==>
      if a == o && (q == p || q == Sibling(p)) then false else (a == o + 1 && q == p / 2) || At(r, a, q)
    ensures Nested(r')
  {
    SiblingFacts(p);
    forall a: nat, q: nat, a': nat, q': nat | At(r', a, q) && At(r', a', q') && a < a' ensures Up(q, a' - a) != q' {
      if a == o + 1 && q == p / 2 {
        assert Up(p, a' - o) == Up(p / 2, a' - o - 1);
      } else if a' == o + 1 && q' == p / 2 && a < o {
        UpNext(q, o - a);
        assert Up(q, o - a) != p && Up(q, o - a) != Sibling(p);
      } else if a' == o + 1 && q' == p / 2 {
        assert Up(q, 1) == Up(q / 2, 0);
      }
    }
  }

  lemma JoinFree(r: Rows, r': Rows, o: nat, p: nat)
    requires At(r, o, p) && At(r, o, Sibling(p))
    requires forall a: nat, q: nat :: At(r', a, q) <==>
      if a == o && (q == p || q == Sibling(p)) then false else (a == o + 1 && q == p / 2) || At(r, a, q)
    ensures forall x: nat :: Free(r', x) <==> Free(r, x)
  {
    SiblingFacts(p);
    forall x: nat ensures Free(r', x) <==> Free(r, x) {
      UpNext(x, o);
      if Free(r, x) {
        var a: nat :| At(r, a, Up(x, a));
        assert At(r', a, Up(x, a)) || At(r', o + 1, Up(x, o + 1));
      }
      if Free(r', x) {
        var a: nat :| At(r', a, Up(x, a));
        assert At(r, a, Up(x, a)) || At(r, o, Up(x, o));
      }
    }
  }

  /** An available node is replaced by its two halves: no page changes. */
  function Halved(r: Rows, o: nat, p: nat): Rows
    requires o > 0 && o < |r| && p < |r[o]| && 2 * p + 1 < |r[o - 1]|
  {
    Put(Put(Put(r, o, p, false), o - 1, 2 * p, true), o - 1, 2 * p + 1, true)
  }

  lemma HalveAt(r: Rows, m: nat, o: nat, p: nat)
    requires Shaped(r, m) && o > 0 && At(r, o, p)
    ensures 2 * p + 1 < Pow2(m - o + 1) && Shaped(Halved(r, o, p), m)
    ensures forall a: nat, q: nat :: At(Halved(r, o, p), a, q) <==>
      if a == o && q == p then false else (a == o - 1 && (q == 2 * p || q == 2 * p + 1)) || At(r, a, q)
  {
    assert Pow2(m - o + 1) == 2 * Pow2(m - o);
    var r1 := Put(r, o, p, false);
    PutShaped(r, m, o, p, false);
    var r2 := Put(r1, o - 1, 2 * p, true);
    PutShaped(r1, m, o - 1, 2 * p, true);
    PutShaped(r2, m, o - 1, 2 * p + 1, true);
  }

  lemma HalveNode(r: Rows, m: nat, o: nat, p: nat)
    requires Shaped(r, m) && Nested(r) && NoTwinsBut(r, o, p) && o > 0 && At(r, o, p)
    ensures 2 * p + 1 < Pow2(m - o + 1)
    ensures var r' := Halved(r, o, p);
      && Shaped(r', m) && Nested(r') && NoTwinsBut(r', o - 1, 2 * p)
      && (forall x: nat :: Free(r', x) <==> Free(r, x))
      && !At(r, o - 1, 2 * p) && !At(r, o - 1, 2 * p + 1)
  {
    var r' := Halved(r, o, p);
    HalveAt(r, m, o, p);
    HalfGone(r, o, p);
    HalveNested(r, r', o, p);
    HalveFree(r, r', o, p);
    HalveTwins(r, r', o, p);
  }

  lemma HalfGone(r: Rows, o: nat, p: nat)
    requires Nested(r) && o > 0 && At(r, o, p)
    ensures !At(r, o - 1, 2 * p) && !At(r, o - 1, 2 * p + 1)
  {
    assert Up(2 * p, 1) == Up(2 * p / 2, 0) && Up(2 * p + 1, 1) == Up((2 * p + 1) / 2, 0);
  }

  lemma HalveTwins(r: Rows, r': Rows, o: nat, p: nat)
    requires NoTwinsBut(r, o, p) && o > 0 && !At(r, o - 1, 2 * p) && !At(r, o - 1, 2 * p + 1)
    requires forall a: nat, q: nat :: At(r', a, q) <==>
      if a == o && q == p then false else (a == o - 1 && (q == 2 * p || q == 2 * p + 1)) || At(r, a, q)
    ensures NoTwinsBut(r', o - 1, 2 * p)
  {
    forall a: nat, q: nat | At(r', a, q) && At(r', a, Sibling(q))
      ensures a == o - 1 && (q == 2 * p || q == Sibling(2 * p))
    {
      SiblingFacts(q);
      SiblingFacts(p);
    }
  }

  lemma HalveNested(r: Rows, r': Rows, o: nat, p: nat)
    requires Nested(r) && o > 0 && At(r, o, p)
    requires forall a: nat, q: nat :: At(r', a, q) <==>
      if a == o && q == p then false else (a == o - 1 && (q == 2 * p || q == 2 * p + 1)) || At(r, a, q)
    ensures Nested(r')
  {
    forall a: nat, q: nat, a': nat, q': nat | At(r', a, q) && At(r', a', q') && a < a' ensures Up(q, a' - a) != q' {
      if a == o - 1 && q / 2 == p {
        assert Up(q, a' - a) == Up(q / 2, a' - o);
      } else if a' == o - 1 && q' / 2 == p {
        UpNext(q, a' - a);
        assert Up(q, o - a) != p;
      }
    }
  }

  lemma HalveFree(r: Rows, r': Rows, o: nat, p: nat)
    requires o > 0 && At(r, o, p)
    requires forall a: nat, q: nat :: At(r', a, q) <==>
      if a == o && q == p then false else (a == o - 1 && (q == 2 * p || q == 2 * p + 1)) || At(r, a, q)
    ensures forall x: nat :: Free(r', x) <==> Free(r, x)
  {
    forall x: nat ensures Free(r', x) <==> Free(r, x) {
      UpNext(x, o - 1);
      if Free(r, x) {
        var a: nat :| At(r, a, Up(x, a));
        assert At(r', a, Up(x, a)) || At(r', o - 1, Up(x, o - 1));
      }
      if Free(r', x) {
        var a: nat :| At(r', a, Up(x, a));
        assert At(r, a, Up(x, a)) || At(r, o, Up(x, o));
      }
    }
  }

  // ------------------------------------------------------------------ coalescing

  /** Every entirely free, naturally aligned block lies under an available node. */
  lemma {:induction false} BlockIsCovered(r: Rows, o: nat, p: nat) returns (n: nat)
    requires NoTwins(r) && forall x: nat :: Up(x, o) == p ==> Free(r, x)
    ensures At(r, o + n, Up(p, n))
    decreases o
  {
    if o == 0 {
      assert Up(p, 0) == p;
      n :| At(r, n, Up(p, n));
    } else {
      forall x: nat | Up(x, o - 1) == 2 * p || Up(x, o - 1) == 2 * p + 1 ensures Free(r, x) {
        UpNext(x, o - 1);
      }
      var a := BlockIsCovered(r, o - 1, 2 * p);
      var b := BlockIsCovered(r, o - 1, 2 * p + 1);
      assert a > 0 || b > 0 by {
        assert Sibling(2 * p) == 2 * p + 1;
      }
      n := if a > 0 then a - 1 else b - 1;
    }
  }

  // -------------------------------------------------------------------- counting

  /** How many of the first `n` flags of a row are set. */
  function Count(row: seq<bool>, n: nat): nat
    requires n <= |row|
  {
    if n == 0 then 0 else Count(row, n - 1) + if row[n - 1] then 1 else 0
  }

  /** What setting a flag that counts does to a count. */
  function Change(counts: bool, was: bool, flag: bool): int {
    if counts && flag && !was then 1 else if counts && !flag && was then -1 else 0
  }

  lemma {:induction false} CountPut(row: seq<bool>, n: nat, p: nat, flag: bool)
    requires n <= |row| && p < |row|
    ensures Count(row[p := flag], n) == Count(row, n) + Change(p < n, row[p], flag)
  {
    if n > 0 {
      CountPut(row, n - 1, p, flag);
    }
  }

  lemma {:induction false} CountNone(row: seq<bool>, n: nat)
    requires n <= |row|
    ensures Count(row, n) == 0 <==> forall p :: 0 <= p < n ==> !row[p]
  {
    if n > 0 {
      CountNone(row, n - 1);
    }
  }

  /** The pages of the available nodes of the orders below `n`, each order's count times its size. */
  function Weight(r: Rows, n: nat): nat
    requires n <= |r|
  {
    if n == 0 then 0 else Weight(r, n - 1) + Pow2(n - 1) * Count(r[n - 1], |r[n - 1]|)
  }

  lemma {:induction false} WeightPut(r: Rows, n: nat, o: nat, p: nat, flag: bool)
    requires n <= |r| && o < |r| && p < |r[o]|
    ensures Weight(Put(r, o, p, flag), n) == Weight(r, n) + Pow2(o) * Change(o < n, r[o][p], flag)
  {
    hide Pow2;
    if n > 0 {
      WeightPut(r, n - 1, o, p, flag);
      if o == n - 1 {
        CountPut(r[o], |r[o]|, p, flag);
        Distribute(Pow2(o), Count(r[o], |r[o]|), Change(true, r[o][p], flag));
      }
    }
  }

  lemma Distribute(w: int, a: int, b: int)
    ensures w * (a + b) == w * a + w * b && w * 1 == w && w * -1 == -w && w * 0 == 0
  {
  }

  /** How many of the first `n` pages are free. */
  ghost function CountFree(r: Rows, n: nat): nat {
    if n == 0 then 0 else CountFree(r, n - 1) + if Free(r, n - 1) then 1 else 0
  }

  /** The same weight, summed over the subtree of a node. */
  function Subtree(r: Rows, k: nat, q: nat): nat
    decreases k
  {
    (if At(r, k, q) then Pow2(k) else 0) + if k == 0 then 0 else Subtree(r, k - 1, 2 * q) + Subtree(r, k - 1, 2 * q + 1)
  }

  function Subtrees(r: Rows, k: nat, n: nat): nat {
    if n == 0 then 0 else Subtrees(r, k, n - 1) + Subtree(r, k, n - 1)
  }

  lemma FlagAt(r: Rows, k: nat, q: nat)
    requires k < |r| && q < |r[k]|
    ensures At(r, k, q) == r[k][q]
  {
  }

  lemma {:induction false} RowOfSubtrees(r: Rows, k: nat, n: nat)
    requires k < |r| && n <= |r[k]|
    ensures Subtrees(r, k, n) == Pow2(k) * Count(r[k], n) + if k == 0 then 0 else Subtrees(r, k - 1, 2 * n)
  {
    if n > 0 {
      hide Pow2, At;
      RowOfSubtrees(r, k, n - 1);
      Distribute(Pow2(k), Count(r[k], n - 1), 1);
      assert At(r, k, n - 1) == r[k][n - 1] by {
        FlagAt(r, k, n - 1);
      }
      if k > 0 {
        assert Subtrees(r, k - 1, 2 * n) == Subtrees(r, k - 1, 2 * n - 1) + Subtree(r, k - 1, 2 * n - 1);
        assert Subtrees(r, k - 1, 2 * n - 1) == Subtrees(r, k - 1, 2 * n - 2) + Subtree(r, k - 1, 2 * n - 2);
      }
    }
  }

  lemma {:induction false} WeightOfSubtrees(r: Rows, m: nat, k: nat)
    requires Shaped(r, m) && k <= m
    ensures Subtrees(r, k, Pow2(m - k)) == Weight(r, k + 1)
  {
    RowOfSubtrees(r, k, Pow2(m - k));
    if k > 0 {
      WeightOfSubtrees(r, m, k - 1);
    }
  }

  /** Some node strictly above node `q` of order `k` is available. */
  predicate Covered(r: Rows, k: nat, q: nat)
    decreases |r| - k
  {
    k + 1 < |r| && (At(r, k + 1, q / 2) || Covered(r, k + 1, q / 2))
  }

  lemma {:induction false} CoveredBy(r: Rows, k: nat, q: nat) returns (n: nat)
    requires Covered(r, k, q)
    ensures n > 0 && At(r, k + n, Up(q, n))
    decreases |r| - k
  {
    if At(r, k + 1, q / 2) {
      n := 1;
      assert Up(q, 1) == Up(q / 2, 0);
    } else {
      n := CoveredBy(r, k + 1, q / 2);
      n := n + 1;
    }
  }

  lemma {:induction false} AvailableAbove(r: Rows, k: nat, q: nat, n: nat)
    requires n > 0 && At(r, k + n, Up(q, n))
    ensures Covered(r, k, q)
    decreases n
  {
    if n > 1 {
      AvailableAbove(r, k + 1, q / 2, n - 1);
    } else {
      assert Up(q, 1) == Up(q / 2, 0);
    }
  }

  lemma {:induction false} NothingBelow(r: Rows, k: nat, q: nat)
    requires Nested(r) && Covered(r, k, q)
    ensures Subtree(r, k, q) == 0
    decreases k
  {
    var _ := CoveredBy(r, k, q);
    if k > 0 {
      NothingBelow(r, k - 1, 2 * q);
      NothingBelow(r, k - 1, 2 * q + 1);
    }
  }

  lemma {:induction false} CountAll(r: Rows, lo: nat, n: nat)
    requires forall x: nat :: lo <= x < lo + n ==> Free(r, x)
    ensures CountFree(r, lo + n) == CountFree(r, lo) + n
  {
    if n > 0 {
      CountAll(r, lo, n - 1);
      assert Free(r, lo + n - 1);
    }
  }

  lemma Halves(q: nat, k: nat)
    requires k > 0
    ensures 2 * q * Pow2(k - 1) == q * Pow2(k) && (2 * q + 2) * Pow2(k - 1) == (q + 1) * Pow2(k)
  {
    var w := Pow2(k - 1);
    assert q * (2 * w) == 2 * q * w;
    assert (q + 1) * (2 * w) == (2 * q + 2) * w;
  }

  lemma FullBlock(r: Rows, k: nat, q: nat)
    requires At(r, k, q)
    ensures CountFree(r, (q + 1) * Pow2(k)) == CountFree(r, q * Pow2(k)) + Pow2(k)
  {
    var lo := q * Pow2(k);
    Distribute(Pow2(k), q, 1);
    forall x: nat | lo <= x < lo + Pow2(k) ensures Free(r, x) {
      UpRange(x, k, q);
      assert At(r, k, Up(x, k));
    }
    CountAll(r, lo, Pow2(k));
  }

  /** In a tiling, the weight of a subtree is the number of free pages under its node. */
  lemma {:induction false} SubtreeCounts(r: Rows, k: nat, q: nat)
    requires Nested(r) && !Covered(r, k, q)
    ensures CountFree(r, (q + 1) * Pow2(k)) == CountFree(r, q * Pow2(k)) + Subtree(r, k, q)
    decreases k
  {
    hide Pow2, CountFree, Nested, At;
    if At(r, k, q) {
      FullBlock(r, k, q);
      if k > 0 {
        HalvesCovered(r, k, q);
        NothingBelow(r, k - 1, 2 * q);
        NothingBelow(r, k - 1, 2 * q + 1);
      }
    } else if k == 0 {
      NotFreePage(r, q);
    } else {
      HalvesCovered(r, k, q);
      SubtreeCounts(r, k - 1, 2 * q);
      SubtreeCounts(r, k - 1, 2 * q + 1);
      Halves(q, k);
    }
  }

  lemma HalvesCovered(r: Rows, k: nat, q: nat)
    requires k > 0 && !Covered(r, k, q)
    ensures Covered(r, k - 1, 2 * q) <==> At(r, k, q)
    ensures Covered(r, k - 1, 2 * q + 1) <==> At(r, k, q)
  {
    assert 2 * q / 2 == q && (2 * q + 1) / 2 == q;
  }

  lemma NotFreePage(r: Rows, q: nat)
    requires !At(r, 0, q) && !Covered(r, 0, q)
    ensures CountFree(r, (q + 1) * Pow2(0)) == CountFree(r, q * Pow2(0))
  {
    assert !Free(r, q) by {
      if a: nat :| At(r, a, Up(q, a)) {
        assert Up(q, 0) == q;
        AvailableAbove(r, 0, q, a);
      }
    }
  }

  lemma PowNought()
    ensures Pow2(0) == 1
  {
  }

  /** The counts per order account for every free page exactly once. */
  lemma WeightIsFreePages(r: Rows, m: nat)
    requires Tiling(r, m)
    ensures Weight(r, m + 1) == CountFree(r, Pow2(m))
  {
    RootWeight(r, m);
    hide Pow2, Weight, Subtree, CountFree;
    SubtreeCounts(r, m, 0);
  }

  lemma RootWeight(r: Rows, m: nat)
    requires Shaped(r, m)
    ensures Weight(r, m + 1) == Subtree(r, m, 0) && !Covered(r, m, 0) && CountFree(r, 0) == 0
  {
    PowNought();
    hide Pow2, Weight, Subtree;
    WeightOfSubtrees(r, m, m);
    assert Subtrees(r, m, 1) == Subtrees(r, m, 0) + Subtree(r, m, 0);
  }

  lemma JoinedWeight(r: Rows, m: nat, o: nat, p: nat)
    requires Shaped(r, m) && At(r, o, p) && At(r, o, Sibling(p)) && o < m && p / 2 < Pow2(m - o - 1)
    requires !At(r, o + 1, p / 2)
    ensures Weight(Joined(r, o, p), m + 1) == Weight(r, m + 1)
  {
    SiblingFacts(p);
    WeightPut(r, m + 1, o, p, false);
    var r1 := Put(r, o, p, false);
    WeightPut(r1, m + 1, o, Sibling(p), false);
    var r2 := Put(r1, o, Sibling(p), false);
    WeightPut(r2, m + 1, o + 1, p / 2, true);
    Distribute(Pow2(o), 0, 0);
  }

  lemma HalvedWeight(r: Rows, m: nat, o: nat, p: nat)
    requires Shaped(r, m) && o > 0 && At(r, o, p) && !At(r, o - 1, 2 * p) && !At(r, o - 1, 2 * p + 1)
    requires 2 * p + 1 < |r[o - 1]|
    ensures Weight(Halved(r, o, p), m + 1) == Weight(r, m + 1)
  {
    WeightPut(r, m + 1, o, p, false);
    var r1 := Put(r, o, p, false);
    WeightPut(r1, m + 1, o - 1, 2 * p, true);
    var r2 := Put(r1, o - 1, 2 * p, true);
    WeightPut(r2, m + 1, o - 1, 2 * p + 1, true);
    Distribute(Pow2(o - 1), 0, 0);
  }
}
