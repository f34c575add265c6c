/**
  The B-tree that indexes the page frames of a memory object
  (kernel/util/btree.c, kernel/include/util/btree.h): BRANCHING_FACTOR is 2, so
  a node has at most 3 keys and 4 children.  This module describes what the
  operations do to the tree as a value; module `BTreeMemory` shows that the
  pointer code does exactly this.
*/
module BTree {

  const BRANCHING_FACTOR: nat := 2
  const MAX_KEYS: nat := 3

  const TWO_64 := 0x1_0000_0000_0000_0000

  type Key = k: nat | k < TWO_64
  type Data = nat          // a pointer; 0 is NULL

  datatype Entry = Entry(key: Key, data: Data)
  datatype Option<+T> = None | Some(value: T)

  /** A leaf has no kids; any other node has one kid more than entries. */
  datatype Tree = Tree(es: seq<Entry>, kids: seq<Tree>)

  // -------------------------------------------------------------- keys as integers

  /** What becomes of a 64-bit key that passes through an `int`, as every key does that moves between nodes. */
  function Narrow(k: Key): Key {
    var low := k % 0x1_0000_0000;
    if low < 0x8000_0000 then low else low + (TWO_64 - 0x1_0000_0000)
  }

  predicate FitsInt(k: Key) {
    k < 0x8000_0000 || k >= TWO_64 - 0x8000_0000
  }

  /** A key survives if and only if it fits. */
  lemma NarrowKeeps(k: Key)
    ensures Narrow(k) == k <==> FitsInt(k)
    ensures FitsInt(Narrow(k)) && Narrow(Narrow(k)) == Narrow(k)
  {
  }

  /** An entry after such a move. */
  function Moved(e: Entry): (r: Entry)
    ensures FitsInt(e.key) ==> r == e
  {
    Entry(Narrow(e.key), e.data)
  }

  function MovedAll(s: seq<Entry>): (r: seq<Entry>)
    ensures |r| == |s|
  {
    seq(|s|, i requires 0 <= i < |s| => Moved(s[i]))
  }

  ghost predicate AllFit(s: seq<Entry>) {
    forall i :: 0 <= i < |s| ==> FitsInt(s[i].key)
  }

  lemma MovedAllSame(s: seq<Entry>)
    requires AllFit(s)
    ensures MovedAll(s) == s
  {
  }

  // ------------------------------------------------------------------ sequences

  ghost predicate Sorted(s: seq<Entry>) {
    forall i, j :: 0 <= i < j < |s| ==> s[i].key < s[j].key
  }

  ghost predicate Below(s: seq<Entry>, k: Key) {
    forall i :: 0 <= i < |s| ==> s[i].key < k
  }

  ghost predicate Above(s: seq<Entry>, k: Key) {
    forall i :: 0 <= i < |s| ==> k < s[i].key
  }

  /** The data stored under `k`, or NULL. */
  function Find(s: seq<Entry>, k: Key): Data {
    if s == [] then 0 else if s[0].key == k then s[0].data else Find(s[1..], k)
  }

  function InsertSorted(s: seq<Entry>, e: Entry): seq<Entry> {
    if s == [] || e.key < s[0].key then [e] + s else [s[0]] + InsertSorted(s[1..], e)
  }

  function Remove(s: seq<Entry>, k: Key): seq<Entry> {
    if s == [] then [] else if s[0].key == k then s[1..] else [s[0]] + Remove(s[1..], k)
  }

  lemma {:induction false} FindAround(a: seq<Entry>, b: seq<Entry>, c: seq<Entry>, k: Key)
    requires Below(a, k) && Above(c, k)
    ensures Find(a + b + c, k) == Find(b, k)
  {
    if a != [] {
      assert (a + b + c)[1..] == a[1..] + b + c;
      FindAround(a[1..], b, c, k);
    } else if b != [] {
      assert (a + b + c)[1..] == a + b[1..] + c;
      FindAround(a, b[1..], c, k);
    } else {
      assert a + b + c == c;
      FindNone(c, k);
    }
  }

  lemma {:induction false} FindNone(s: seq<Entry>, k: Key)
    requires forall i :: 0 <= i < |s| ==> s[i].key != k
    ensures Find(s, k) == 0 && Remove(s, k) == s
  {
    if s != [] {
      FindNone(s[1..], k);
    }
  }

  lemma {:induction false} InsertAround(a: seq<Entry>, b: seq<Entry>, c: seq<Entry>, e: Entry)
    requires Below(a, e.key) && Above(c, e.key)
    ensures InsertSorted(a + b + c, e) == a + InsertSorted(b, e) + c
  {
    if a != [] {
      assert (a + b + c)[1..] == a[1..] + b + c;
      InsertAround(a[1..], b, c, e);
      assert [a[0]] + (a[1..] + InsertSorted(b, e) + c) == a + InsertSorted(b, e) + c;
    } else if b != [] && b[0].key <= e.key {
      assert (a + b + c)[1..] == a + b[1..] + c;
      InsertAround(a, b[1..], c, e);
      assert [b[0]] + (a + InsertSorted(b[1..], e) + c) == a + InsertSorted(b, e) + c;
    } else {
      assert a + b + c == b + c;
      assert [e] + (b + c) == a + ([e] + b) + c;
    }
  }

  lemma {:induction false} RemoveAround(a: seq<Entry>, b: seq<Entry>, c: seq<Entry>, k: Key)
    requires Below(a, k) && Above(c, k)
    ensures Remove(a + b + c, k) == a + Remove(b, k) + c
  {
    if a != [] {
      assert a[0].key < k;
      FirstOut(a, b, c);
      RemoveAround(a[1..], b, c, k);
      FirstOut(a, Remove(b, k), c);
    } else {
      assert a + b + c == b + c && a + Remove(b, k) + c == Remove(b, k) + c;
      RemoveBefore(b, c, k);
    }
  }

  lemma {:induction false} RemoveBefore(b: seq<Entry>, c: seq<Entry>, k: Key)
    requires Above(c, k)
    ensures Remove(b + c, k) == Remove(b, k) + c
  {
    if b == [] {
      assert b + c == c;
      FindNone(c, k);
    } else {
      assert (b + c)[1..] == b[1..] + c;
      if b[0].key != k {
        RemoveBefore(b[1..], c, k);
      }
    }
  }

  lemma FirstOut<T>(a: seq<T>, b: seq<T>, c: seq<T>)
    requires a != []
    ensures (a + b + c)[1..] == a[1..] + b + c && (a + b + c)[0] == a[0] && [a[0]] + (a[1..] + b + c) == a + b + c
  {
  }

  /** Sortedness of a concatenation, seen from its middle. */
  lemma SortedParts(a: seq<Entry>, e: Entry, c: seq<Entry>)
    requires Sorted(a + [e] + c)
    ensures Sorted(a) && Sorted(c) && Below(a, e.key) && Above(c, e.key)
  {
    var s := a + [e] + c;
    assert forall i :: 0 <= i < |a| ==> s[i] == a[i];
    assert s[|a|] == e;
    assert forall i :: 0 <= i < |c| ==> s[|a| + 1 + i] == c[i];
  }

  // ---------------------------------------------------------------------- trees

  /** All entries from left to right. */
  function Inorder(t: Tree): seq<Entry>
    decreases t, 1
  {
    Flat(t.es, t.kids)
  }

  function Flat(es: seq<Entry>, kids: seq<Tree>): seq<Entry>
    decreases kids, 0
  {
    if kids == [] then es
    else if es == [] then Inorder(kids[0])
    else Inorder(kids[0]) + [es[0]] + Flat(es[1..], kids[1..])
  }

  /** The entries before kid `i`, and those after it. */
  function Before(es: seq<Entry>, kids: seq<Tree>, i: nat): seq<Entry>
    requires i <= |es| < |kids|
  {
    if i == 0 then [] else Inorder(kids[0]) + [es[0]] + Before(es[1..], kids[1..], i - 1)
  }

  function After(es: seq<Entry>, kids: seq<Tree>, i: nat): seq<Entry>
    requires i <= |es| < |kids|
  {
    if i == |es| then [] else [es[i]] + Flat(es[i + 1..], kids[i + 1..])
  }

  lemma {:induction false} FlatKid(es: seq<Entry>, kids: seq<Tree>, i: nat, kid: Tree)
    requires |kids| == |es| + 1 && i <= |es|
    ensures Flat(es, kids[i := kid]) == Before(es, kids, i) + Inorder(kid) + After(es, kids, i)
  {
    if i == 0 {
      if es != [] {
        assert kids[0 := kid][1..] == kids[1..];
        assert Inorder(kid) + [es[0]] + Flat(es[1..], kids[1..])
                 == [] + Inorder(kid) + ([es[0]] + Flat(es[1..], kids[1..]));
      }
    } else {
      assert kids[i := kid][1..] == kids[1..][i - 1 := kid];
      FlatKid(es[1..], kids[1..], i - 1, kid);
      AfterTail(es, kids, i);
      Regroup(Inorder(kids[0]) + [es[0]], Before(es[1..], kids[1..], i - 1), Inorder(kid), After(es, kids, i));
    }
  }

  lemma Regroup(p: seq<Entry>, a: seq<Entry>, b: seq<Entry>, c: seq<Entry>)
    ensures p + (a + b + c) == (p + a) + b + c
    ensures p + (b + c) == p + b + c
    ensures [] + b + c == b + c
  {
  }

  lemma AfterTail(es: seq<Entry>, kids: seq<Tree>, i: nat)
    requires |kids| == |es| + 1 && 0 < i <= |es|
    ensures After(es[1..], kids[1..], i - 1) == After(es, kids, i)
  {
    if i < |es| {
      assert es[1..][i..] == es[i + 1..] && kids[1..][i..] == kids[i + 1..];
    }
  }

  /** Putting `l`, `e`, `r` in the place of kid `i`. */
  function SpliceEs(es: seq<Entry>, i: nat, e: Entry): seq<Entry>
    requires i <= |es|
  {
    es[..i] + [e] + es[i..]
  }

  function SpliceKids(kids: seq<Tree>, i: nat, l: Tree, r: Tree): seq<Tree>
    requires i < |kids|
  {
    kids[..i] + [l, r] + kids[i + 1..]
  }

  lemma {:induction false} FlatSplice(es: seq<Entry>, kids: seq<Tree>, i: nat, l: Tree, e: Entry, r: Tree)
    requires |kids| == |es| + 1 && i <= |es|
    ensures Flat(SpliceEs(es, i, e), SpliceKids(kids, i, l, r))
         == Before(es, kids, i) + (Inorder(l) + [e] + Inorder(r)) + After(es, kids, i)
  {
    var es', kids' := SpliceEs(es, i, e), SpliceKids(kids, i, l, r);
    if i == 0 {
      assert es'[1..] == es && kids'[1..] == [r] + kids[1..] == kids[0 := r];
      FlatKid(es, kids, 0, r);
      assert Inorder(l) + [e] + ([] + Inorder(r) + After(es, kids, 0))
               == [] + (Inorder(l) + [e] + Inorder(r)) + After(es, kids, 0);
    } else {
      assert es'[1..] == SpliceEs(es[1..], i - 1, e);
      assert kids'[1..] == SpliceKids(kids[1..], i - 1, l, r);
      FlatSplice(es[1..], kids[1..], i - 1, l, e, r);
      AfterTail(es, kids, i);
      Regroup(Inorder(kids[0]) + [es[0]], Before(es[1..], kids[1..], i - 1), Inorder(l) + [e] + Inorder(r),
              After(es, kids, i));
    }
  }

  lemma {:induction false} FlatConcat(es: seq<Entry>, kids: seq<Tree>, e: Entry, es': seq<Entry>, kids': seq<Tree>)
    requires |kids| == |es| + 1 && |kids'| == |es'| + 1
    ensures Flat(es + [e] + es', kids + kids') == Flat(es, kids) + [e] + Flat(es', kids')
  {
    if es == [] {
      assert ([] + [e] + es')[1..] == es' && (kids + kids')[1..] == kids';
    } else {
      assert (es + [e] + es')[1..] == es[1..] + [e] + es' && (kids + kids')[1..] == kids[1..] + kids';
      FlatConcat(es[1..], kids[1..], e, es', kids');
      Regroup(Inorder(kids[0]) + [es[0]], Flat(es[1..], kids[1..]), [e], Flat(es', kids'));
    }
  }

  /** Equal depth, at most three keys, and at least one key below the root. */
  ghost predicate Balanced(t: Tree, h: nat) {
    && |t.es| <= MAX_KEYS
    && if h == 0 then t.kids == []
       else
         && |t.kids| == |t.es| + 1
         && forall i :: 0 <= i < |t.kids| ==> |t.kids[i].es| >= 1 && Balanced(t.kids[i], h - 1)
  }

  // ----------------------------------------------------------------- positions

  /** `while (i < n_keys && key > keys[i]) i++`. */
  function LowerPos(es: seq<Entry>, k: Key): (p: nat)
    ensures p <= |es| && Below(es[..p], k) && (p < |es| ==> k <= es[p].key)
  {
    if es == [] || k <= es[0].key then 0
    else
      var q := LowerPos(es[1..], k);
      assert es[..q + 1] == [es[0]] + es[1..][..q];
      q + 1
  }

  /** One more than the `i` at which `while (i >= 0 && k < keys[i]) i--` stops. */
  function UpperPos(es: seq<Entry>, k: Key): (p: nat)
    ensures p <= |es| && Above(es[p..], k) && (p > 0 ==> es[p - 1].key <= k)
  {
    if es == [] || es[|es| - 1].key <= k then |es|
    else
      var q := UpperPos(es[..|es| - 1], k);
      assert es[q..] == es[..|es| - 1][q..] + [es[|es| - 1]];
      q
  }

  lemma {:induction false} BeforeEnds(es: seq<Entry>, kids: seq<Tree>, i: nat)
    requires 0 < i <= |es| < |kids|
    ensures var b := Before(es, kids, i); |b| > 0 && b[|b| - 1] == es[i - 1]
  {
    if i > 1 {
      BeforeEnds(es[1..], kids[1..], i - 1);
    }
  }

  /** A key between the separators of kid `i` is outside everything else. */
  lemma KidBounds(es: seq<Entry>, kids: seq<Tree>, i: nat, k: Key)
    requires |kids| == |es| + 1 && i <= |es| && Sorted(Flat(es, kids))
    requires i > 0 ==> es[i - 1].key < k
    requires i < |es| ==> k < es[i].key
    ensures Flat(es, kids) == Before(es, kids, i) + Inorder(kids[i]) + After(es, kids, i)
    ensures Below(Before(es, kids, i), k) && Above(After(es, kids, i), k) && Sorted(Inorder(kids[i]))
  {
    var a, b, c := Before(es, kids, i), Inorder(kids[i]), After(es, kids, i);
    assert kids[i := kids[i]] == kids;
    FlatKid(es, kids, i, kids[i]);
    SortedSlices(a, b, c);
    if i > 0 {
      BeforeEnds(es, kids, i);
    }
    assert i < |es| ==> c[0] == es[i];
  }

  lemma SortedSlices(a: seq<Entry>, b: seq<Entry>, c: seq<Entry>)
    requires Sorted(a + b + c)
    ensures Sorted(a) && Sorted(b) && Sorted(c)
  {
    var s := a + b + c;
    assert forall i :: 0 <= i < |a| ==> s[i] == a[i];
    assert forall i :: 0 <= i < |b| ==> s[|a| + i] == b[i];
    assert forall i :: 0 <= i < |c| ==> s[|a| + |b| + i] == c[i];
  }

  /** An entry of the node itself, with what lies on either side. */
  lemma AtEntry(es: seq<Entry>, kids: seq<Tree>, i: nat)
    requires |kids| == |es| + 1 && i < |es|
    ensures Flat(es, kids) == Before(es, kids, i) + Inorder(kids[i]) + [es[i]] + Flat(es[i + 1..], kids[i + 1..])
  {
    assert kids[i := kids[i]] == kids;
    FlatKid(es, kids, i, kids[i]);
    Regroup(Before(es, kids, i) + Inorder(kids[i]), [], [es[i]], Flat(es[i + 1..], kids[i + 1..]));
  }

  // -------------------------------------------------------------------- search

  /** `btree_search`. */
  function Search(t: Tree, h: nat, k: Key): Data
    requires Balanced(t, h)
    decreases h
  {
    var i := LowerPos(t.es, k);
    if i < |t.es| && t.es[i].key == k then t.es[i].data
    else if h == 0 then 0
    else Search(t.kids[i], h - 1, k)
  }

  lemma {:induction false} LeafFind(es: seq<Entry>, k: Key)
    requires Sorted(es)
    ensures var i := LowerPos(es, k);
      Find(es, k) == if i < |es| && es[i].key == k then es[i].data else 0
  {
    var i := LowerPos(es, k);
    if i < |es| && es[i].key == k {
      assert es == es[..i] + [es[i]] + es[i + 1..];
      FindAround(es[..i], [es[i]], es[i + 1..], k);
    } else {
      assert es == es[..i] + [] + es[i..];
      FindAround(es[..i], [], es[i..], k);
    }
  }

  /** Searching the tree is looking the key up in the sequence of its entries. */
  lemma {:induction false} SearchFinds(t: Tree, h: nat, k: Key)
    requires Balanced(t, h) && Sorted(Inorder(t))
    ensures Search(t, h, k) == Find(Inorder(t), k)
    decreases h
  {
    hide LowerPos, Flat;
    var i := LowerPos(t.es, k);
    if h == 0 {
      LeafInorder(t);
      LeafFind(t.es, k);
    } else if i < |t.es| && t.es[i].key == k {
      AtEntry(t.es, t.kids, i);
      var a, c := Before(t.es, t.kids, i) + Inorder(t.kids[i]), Flat(t.es[i + 1..], t.kids[i + 1..]);
      SortedParts(a, t.es[i], c);
      FindAround(a, [t.es[i]], c, k);
    } else {
      assert i > 0 ==> t.es[..i][i - 1].key < k;
      KidBounds(t.es, t.kids, i, k);
      FindAround(Before(t.es, t.kids, i), Inorder(t.kids[i]), After(t.es, t.kids, i), k);
      SearchFinds(t.kids[i], h - 1, k);
    }
  }

  // ------------------------------------------------------------------ insertion

  predicate Full(t: Tree) {
    |t.es| == MAX_KEYS && (t.kids == [] || |t.kids| == MAX_KEYS + 1)
  }

  function LeftHalf(c: Tree): Tree
    requires Full(c)
  {
    Tree([c.es[0]], if c.kids == [] then [] else c.kids[..2])
  }

  function RightHalf(c: Tree): Tree
    requires Full(c)
  {
    Tree([Moved(c.es[2])], if c.kids == [] then [] else c.kids[2..])
  }

  /** `btree_split_child`: the middle key of a full kid moves up between its two halves. */
  function SplitKid(t: Tree, i: nat): Tree
    requires i < |t.kids| == |t.es| + 1 && Full(t.kids[i])
  {
    var c := t.kids[i];
    Tree(SpliceEs(t.es, i, Moved(c.es[1])), SpliceKids(t.kids, i, LeftHalf(c), RightHalf(c)))
  }

  lemma Halves(c: Tree)
    requires Full(c) && AllFit(c.es)
    ensures Inorder(c) == Inorder(LeftHalf(c)) + [c.es[1]] + Inorder(RightHalf(c))
  {
    if c.kids == [] {
      assert c.es == [c.es[0]] + [c.es[1]] + [c.es[2]];
    } else {
      HalvesOfKids(c.es, c.kids);
    }
  }

  lemma HalvesOfKids(es: seq<Entry>, ks: seq<Tree>)
    requires |es| == 3 && |ks| == 4
    ensures Flat(es, ks) == Flat([es[0]], ks[..2]) + [es[1]] + Flat([es[2]], ks[2..])
  {
    assert es[1..][1..] == [es[2]] && ks[1..][1..] == ks[2..];
    assert Flat(es[1..], ks[1..]) == Inorder(ks[1]) + [es[1]] + Flat([es[2]], ks[2..]);
    assert [es[0]][1..] == [] && ks[..2][1..] == [ks[1]];
    assert Flat([es[0]], ks[..2]) == Inorder(ks[0]) + [es[0]] + Inorder(ks[1]);
    Regroup(Inorder(ks[0]) + [es[0]], Inorder(ks[1]), [es[1]], Flat([es[2]], ks[2..]));
  }

  lemma SplitKeeps(t: Tree, h: nat, i: nat)
    requires h > 0 && Balanced(t, h) && |t.es| < MAX_KEYS && i < |t.kids| && |t.kids[i].es| == MAX_KEYS
    requires AllFit(Inorder(t))
    ensures Full(t.kids[i]) && Balanced(SplitKid(t, i), h) && Inorder(SplitKid(t, i)) == Inorder(t)
  {
    hide Balanced, Inorder;
    SplitBalanced(t, h, i);
    KidFits(t, i);
    OwnFit(t.kids[i]);
    SplitView(t, i);
  }

  /** The keys of a kid, and those of a node, are keys of the tree. */
  lemma KidFits(t: Tree, i: nat)
    requires |t.kids| == |t.es| + 1 && i < |t.kids| && AllFit(Inorder(t))
    ensures AllFit(Inorder(t.kids[i]))
  {
    hide Flat;
    var a, b := Before(t.es, t.kids, i), Inorder(t.kids[i]);
    assert t.kids[i := t.kids[i]] == t.kids;
    FlatKid(t.es, t.kids, i, t.kids[i]);
    forall j | 0 <= j < |b| ensures FitsInt(b[j].key) {
      assert Inorder(t)[|a| + j] == b[j];
    }
  }

  lemma OwnFit(t: Tree)
    requires (t.kids == [] || |t.kids| == |t.es| + 1) && AllFit(Inorder(t))
    ensures AllFit(t.es)
  {
    hide Inorder;
    forall j | 0 <= j < |t.es| ensures FitsInt(t.es[j].key) {
      EntryIn(t, j);
    }
  }

  lemma SplitBalanced(t: Tree, h: nat, i: nat)
    requires h > 0 && Balanced(t, h) && |t.es| < MAX_KEYS && i < |t.kids| && |t.kids[i].es| == MAX_KEYS
    ensures |t.kids| == |t.es| + 1 && Full(t.kids[i]) && Balanced(SplitKid(t, i), h)
  {
    hide Flat;
    var c := t.kids[i];
    assert Balanced(c, h - 1);
    assert Balanced(LeftHalf(c), h - 1) && Balanced(RightHalf(c), h - 1);
  }

  lemma SplitView(t: Tree, i: nat)
    requires |t.kids| == |t.es| + 1 && i < |t.kids| && Full(t.kids[i]) && AllFit(t.kids[i].es)
    ensures Inorder(SplitKid(t, i)) == Inorder(t)
  {
    hide Flat;
    var c := t.kids[i];
    Halves(c);
    assert t.kids[i := c] == t.kids;
    FlatKid(t.es, t.kids, i, c);
    FlatSplice(t.es, t.kids, i, LeftHalf(c), c.es[1], RightHalf(c));
  }

  lemma SplitReady(t: Tree, h: nat, i: nat)
    requires h > 0 && Balanced(t, h) && |t.es| < MAX_KEYS && i < |t.kids| && |t.kids[i].es| == MAX_KEYS
    ensures |t.kids| == |t.es| + 1 && Full(t.kids[i])
    ensures var s := SplitKid(t, i);
      && |s.es| == |t.es| + 1 && |s.kids| == |s.es| + 1
      && Balanced(s.kids[i], h - 1) && |s.kids[i].es| == 1 && Balanced(s.kids[i + 1], h - 1) && |s.kids[i + 1].es| == 1
  {
    SplitBalanced(t, h, i);
  }

  /** `btree_insert_nonfull`. */
  function InsertNonfull(t: Tree, h: nat, e: Entry): Tree
    requires Balanced(t, h) && |t.es| < MAX_KEYS
    decreases h
  {
    var i := UpperPos(t.es, e.key);
    if h == 0 then Tree(SpliceEs(t.es, i, e), [])
    else if |t.kids[i].es| == MAX_KEYS then
      SplitReady(t, h, i);
      var s := SplitKid(t, i);
      var j := if e.key > s.es[i].key then i + 1 else i;
      Tree(s.es, s.kids[j := InsertNonfull(s.kids[j], h - 1, e)])
    else Tree(t.es, t.kids[i := InsertNonfull(t.kids[i], h - 1, e)])
  }

  ghost predicate Lacks(s: seq<Entry>, k: Key) {
    forall i :: 0 <= i < |s| ==> s[i].key != k
  }

  lemma InsertHere(a: seq<Entry>, c: seq<Entry>, e: Entry)
    requires Below(a, e.key) && Above(c, e.key)
    ensures InsertSorted(a + c, e) == a + [e] + c
  {
    InsertAround(a, [], c, e);
    assert a + [] + c == a + c;
  }

  lemma LeafInsert(es: seq<Entry>, e: Entry)
    requires Sorted(es) && Lacks(es, e.key)
    ensures SpliceEs(es, UpperPos(es, e.key), e) == InsertSorted(es, e)
  {
    hide UpperPos, InsertSorted, Sorted, Below, Above;
    var p := UpperPos(es, e.key);
    AllBelow(es, p, e.key);
    InsertHere(es[..p], es[p..], e);
    assert es[..p] + es[p..] == es;
  }

  lemma AllBelow(es: seq<Entry>, p: nat, k: Key)
    requires Sorted(es) && Lacks(es, k) && p <= |es| && (p > 0 ==> es[p - 1].key <= k)
    ensures Below(es[..p], k)
  {
  }

  /** Inserting into kid `j`, when the key belongs between the separators of kid `j`. */
  lemma InsertIntoKid(t: Tree, j: nat, kid: Tree, e: Entry)
    requires |t.kids| == |t.es| + 1 && j < |t.kids| && Sorted(Inorder(t))
    requires j > 0 ==> t.es[j - 1].key < e.key
    requires j < |t.es| ==> e.key < t.es[j].key
    requires Inorder(kid) == InsertSorted(Inorder(t.kids[j]), e)
    ensures Inorder(Tree(t.es, t.kids[j := kid])) == InsertSorted(Inorder(t), e)
  {
    KidBounds(t.es, t.kids, j, e.key);
    FlatKid(t.es, t.kids, j, kid);
    InsertAround(Before(t.es, t.kids, j), Inorder(t.kids[j]), After(t.es, t.kids, j), e);
  }

  /** The entries of a node and of its kids are entries of the tree. */
  lemma LacksParts(t: Tree, j: nat, k: Key)
    requires |t.kids| == |t.es| + 1 && j < |t.kids| && Lacks(Inorder(t), k)
    ensures Lacks(Inorder(t.kids[j]), k) && (j < |t.es| ==> t.es[j].key != k)
  {
    var a, b, c := Before(t.es, t.kids, j), Inorder(t.kids[j]), After(t.es, t.kids, j);
    assert t.kids[j := t.kids[j]] == t.kids;
    FlatKid(t.es, t.kids, j, t.kids[j]);
    assert forall i :: 0 <= i < |b| ==> Inorder(t)[|a| + i] == b[i];
    assert j < |t.es| ==> Inorder(t)[|a| + |b|] == t.es[j];
  }

  lemma InsertBounds(t: Tree, h: nat, k: Key)
    requires h > 0 && Balanced(t, h) && Lacks(Inorder(t), k)
    ensures var i := UpperPos(t.es, k); (i > 0 ==> t.es[i - 1].key < k) && (i < |t.es| ==> k < t.es[i].key)
  {
    hide UpperPos, Flat;
    var i := UpperPos(t.es, k);
    if i > 0 {
      LacksParts(t, i - 1, k);
    }
    assert i < |t.es| ==> t.es[i..][0].key > k;
  }

  lemma SplitBounds(t: Tree, h: nat, i: nat, k: Key)
    requires h > 0 && Balanced(t, h) && |t.es| < MAX_KEYS && i < |t.kids| && |t.kids[i].es| == MAX_KEYS
    requires Full(t.kids[i]) && Lacks(Inorder(SplitKid(t, i)), k)
    requires (i > 0 ==> t.es[i - 1].key < k) && (i < |t.es| ==> k < t.es[i].key)
    ensures var s := SplitKid(t, i); var j := if k > s.es[i].key then i + 1 else i;
      && (j > 0 ==> s.es[j - 1].key < k) && (j < |s.es| ==> k < s.es[j].key)
      && |s.kids[j].es| == 1
  {
    hide Inorder;
    var s := SplitKid(t, i);
    LacksParts(s, i, k);
    assert i > 0 ==> s.es[i - 1] == t.es[i - 1];
    assert i < |t.es| ==> s.es[i + 1] == t.es[i];
  }

  /** Insertion keeps the shape and adds exactly the new entry. */
  lemma {:induction false} InsertNonfullInserts(t: Tree, h: nat, e: Entry)
    requires Balanced(t, h) && |t.es| < MAX_KEYS && (h == 0 || |t.es| >= 1)
    requires Sorted(Inorder(t)) && AllFit(Inorder(t)) && Lacks(Inorder(t), e.key)
    ensures Balanced(InsertNonfull(t, h, e), h) && |InsertNonfull(t, h, e).es| >= 1
    ensures Inorder(InsertNonfull(t, h, e)) == InsertSorted(Inorder(t), e)
    decreases h
  {
    hide UpperPos, Inorder, Balanced, InsertSorted, Sorted, Lacks, SplitKid, AllFit;
    var i := UpperPos(t.es, e.key);
    if h == 0 {
      InsertLeaf(t, e);
    } else {
      NodeCounts(t, h);
      InsertBounds(t, h, e.key);
      if |t.kids[i].es| == MAX_KEYS {
        SplitKeeps(t, h, i);
        SplitReady(t, h, i);
        SplitBounds(t, h, i, e.key);
        var s := SplitKid(t, i);
        InsertInto(s, h, if e.key > s.es[i].key then i + 1 else i, e);
      } else {
        InsertInto(t, h, i, e);
      }
    }
  }

  lemma InsertLeaf(t: Tree, e: Entry)
    requires Balanced(t, 0) && |t.es| < MAX_KEYS && Sorted(Inorder(t)) && Lacks(Inorder(t), e.key)
    ensures var t' := InsertNonfull(t, 0, e);
      Balanced(t', 0) && |t'.es| >= 1 && Inorder(t') == InsertSorted(Inorder(t), e)
  {
    hide UpperPos, InsertSorted, Sorted, Lacks;
    LeafInorder(t);
    LeafInsert(t.es, e);
    LeafInorder(InsertNonfull(t, 0, e));
  }

  lemma {:induction false} InsertInto(t: Tree, h: nat, j: nat, e: Entry)
    requires h > 0 && Balanced(t, h) && j < |t.kids| && |t.es| >= 1 && |t.kids[j].es| < MAX_KEYS
    requires Sorted(Inorder(t)) && AllFit(Inorder(t)) && Lacks(Inorder(t), e.key)
    requires j > 0 ==> t.es[j - 1].key < e.key
    requires j < |t.es| ==> e.key < t.es[j].key
    ensures var t' := Tree(t.es, t.kids[j := InsertNonfull(t.kids[j], h - 1, e)]);
      Balanced(t', h) && Inorder(t') == InsertSorted(Inorder(t), e)
    decreases h, 0
  {
    hide Flat, InsertNonfull;
    KidBounds(t.es, t.kids, j, e.key);
    LacksParts(t, j, e.key);
    KidFits(t, j);
    InsertNonfullInserts(t.kids[j], h - 1, e);
    InsertIntoKid(t, j, InsertNonfull(t.kids[j], h - 1, e), e);
  }

  // ------------------------------------------------------------------- deletion

  predicate IsNode(t: Tree, i: nat) {
    |t.kids| == |t.es| + 1 && i < |t.es|
  }

  /** Kid `i` and its right sibling must both be leaves or both be nodes. */
  predicate Siblings(l: Tree, r: Tree) {
    (l.kids == [] && r.kids == []) || (|l.kids| == |l.es| + 1 && |r.kids| == |r.es| + 1)
  }

  /** `btree_take_prev(x, i + 1)`: rotate the last entry of kid `i` through the separator. */
  function TakePrev(t: Tree, i: nat): Tree
    requires IsNode(t, i) && Siblings(t.kids[i], t.kids[i + 1]) && |t.kids[i].es| >= 1
  {
    var s, c := t.kids[i], t.kids[i + 1];
    var n := |s.es| - 1;
    var c' := Tree([Moved(t.es[i])] + c.es, if c.kids == [] then [] else [s.kids[n + 1]] + c.kids);
    var s' := Tree(s.es[..n], if c.kids == [] then [] else s.kids[..n + 1]);
    Tree(t.es[i := Moved(s.es[n])], t.kids[i := s'][i + 1 := c'])
  }

  /** `btree_take_next(x, i)`: rotate the first entry of kid `i + 1` through the separator. */
  function TakeNext(t: Tree, i: nat): Tree
    requires IsNode(t, i) && Siblings(t.kids[i], t.kids[i + 1]) && |t.kids[i + 1].es| >= 1
  {
    var c, s := t.kids[i], t.kids[i + 1];
    var c' := Tree(c.es + [Moved(t.es[i])], if c.kids == [] then [] else c.kids + [s.kids[0]]);
    var s' := Tree(s.es[1..], if c.kids == [] then [] else s.kids[1..]);
    Tree(t.es[i := Moved(s.es[0])], t.kids[i := c'][i + 1 := s'])
  }

  /** `btree_merge(x, i)`: kid `i`, the separator and kid `i + 1` become one node. */
  function Merge(t: Tree, i: nat): Tree
    requires IsNode(t, i)
  {
    var c, s := t.kids[i], t.kids[i + 1];
    var m := Tree(c.es + [Moved(t.es[i])] + MovedAll(s.es), c.kids + s.kids);
    Tree(t.es[..i] + t.es[i + 1..], t.kids[..i] + [m] + t.kids[i + 2..])
  }

  /** `btree_fill_node(x, i)`. */
  function Fill(t: Tree, i: nat): Tree
    requires |t.kids| == |t.es| + 1 && i <= |t.es| && |t.es| >= 1
    requires forall j :: 0 <= j < |t.es| ==> Siblings(t.kids[j], t.kids[j + 1])
  {
    if i != 0 && |t.kids[i - 1].es| >= BRANCHING_FACTOR then TakePrev(t, i - 1)
    else if i != |t.es| && |t.kids[i + 1].es| >= BRANCHING_FACTOR then TakeNext(t, i)
    else if i != |t.es| then Merge(t, i)
    else Merge(t, i - 1)
  }

  /** Entries and kids around the pair of kids `i` and `i + 1`. */
  function OuterEs(t: Tree, i: nat): seq<Entry>
    requires IsNode(t, i)
  {
    t.es[..i] + t.es[i + 1..]
  }

  function OuterKids(t: Tree, i: nat): seq<Tree>
    requires IsNode(t, i)
  {
    t.kids[..i] + [t.kids[i]] + t.kids[i + 2..]
  }

  lemma PairView(t: Tree, i: nat, l: Tree, e: Entry, r: Tree)
    requires IsNode(t, i)
    ensures Flat(t.es[i := e], t.kids[i := l][i + 1 := r])
         == Before(OuterEs(t, i), OuterKids(t, i), i) + (Inorder(l) + [e] + Inorder(r))
             + After(OuterEs(t, i), OuterKids(t, i), i)
  {
    hide Flat, Before, After;
    var es, kids := OuterEs(t, i), OuterKids(t, i);
    FlatSplice(es, kids, i, l, e, r);
    assert SpliceEs(es, i, e) == t.es[i := e];
    assert SpliceKids(kids, i, l, r) == t.kids[i := l][i + 1 := r];
  }

  lemma MergeView(t: Tree, i: nat)
    requires IsNode(t, i) && Siblings(t.kids[i], t.kids[i + 1]) && AllFit(t.es) && AllFit(t.kids[i + 1].es)
    ensures Inorder(Merge(t, i)) == Inorder(t)
  {
    MovedAllSame(t.kids[i + 1].es);
    var es, kids := OuterEs(t, i), OuterKids(t, i);
    var c, s := t.kids[i], t.kids[i + 1];
    var m := Tree(c.es + [t.es[i]] + s.es, c.kids + s.kids);
    assert Inorder(m) == Inorder(c) + [t.es[i]] + Inorder(s) by {
      if c.kids != [] {
        FlatConcat(c.es, c.kids, t.es[i], s.es, s.kids);
      }
    }
    FlatKid(es, kids, i, m);
    assert kids[i := m] == Merge(t, i).kids;
    PairView(t, i, c, t.es[i], s);
    assert t.es[i := t.es[i]] == t.es && t.kids[i := c][i + 1 := s] == t.kids;
  }

  lemma RotateView(t: Tree, i: nat, l: Tree, e: Entry, r: Tree)
    requires IsNode(t, i)
    requires Inorder(l) + [e] + Inorder(r) == Inorder(t.kids[i]) + [t.es[i]] + Inorder(t.kids[i + 1])
    ensures Flat(t.es[i := e], t.kids[i := l][i + 1 := r]) == Inorder(t)
  {
    PairView(t, i, l, e, r);
    PairView(t, i, t.kids[i], t.es[i], t.kids[i + 1]);
    assert t.es[i := t.es[i]] == t.es && t.kids[i := t.kids[i]][i + 1 := t.kids[i + 1]] == t.kids;
  }

  lemma TakePrevView(t: Tree, i: nat)
    requires IsNode(t, i) && Siblings(t.kids[i], t.kids[i + 1]) && |t.kids[i].es| >= 1
    requires AllFit(t.es) && AllFit(t.kids[i].es)
    ensures Inorder(TakePrev(t, i)) == Inorder(t)
  {
    var s, c := t.kids[i], t.kids[i + 1];
    var n := |s.es| - 1;
    var t' := TakePrev(t, i);
    if c.kids != [] {
      NodePrev(s, t.es[i], c);
    } else {
      assert (s.es[..n] + [s.es[n]]) + ([t.es[i]] + c.es) == s.es + [t.es[i]] + c.es;
    }
    RotateView(t, i, t'.kids[i], s.es[n], t'.kids[i + 1]);
  }

  lemma NodePrev(s: Tree, e: Entry, c: Tree)
    requires |s.kids| == |s.es| + 1 && |s.es| >= 1 && |c.kids| == |c.es| + 1
    ensures var n := |s.es| - 1;
      Flat(s.es[..n], s.kids[..n + 1]) + [s.es[n]] + Flat([e] + c.es, [s.kids[n + 1]] + c.kids)
        == Inorder(s) + [e] + Inorder(c)
  {
    var n := |s.es| - 1;
    var x := Flat(s.es[..n], s.kids[..n + 1]) + [s.es[n]];
    FlatConcat(s.es[..n], s.kids[..n + 1], s.es[n], [], [s.kids[n + 1]]);
    assert s.es[..n] + [s.es[n]] + [] == s.es && s.kids[..n + 1] + [s.kids[n + 1]] == s.kids;
    assert ([e] + c.es)[1..] == c.es && ([s.kids[n + 1]] + c.kids)[1..] == c.kids;
    Regroup(x, Inorder(s.kids[n + 1]), [e], Inorder(c));
  }

  lemma TakeNextView(t: Tree, i: nat)
    requires IsNode(t, i) && Siblings(t.kids[i], t.kids[i + 1]) && |t.kids[i + 1].es| >= 1
    requires AllFit(t.es) && AllFit(t.kids[i + 1].es)
    ensures Inorder(TakeNext(t, i)) == Inorder(t)
  {
    var c, s := t.kids[i], t.kids[i + 1];
    var t' := TakeNext(t, i);
    var c', s' := t'.kids[i], t'.kids[i + 1];
    if c.kids != [] {
      FlatConcat(c.es, c.kids, t.es[i], [], [s.kids[0]]);
      assert c.es + [t.es[i]] + [] == c'.es && c.kids + [s.kids[0]] == c'.kids;
      assert Inorder(s) == Inorder(s.kids[0]) + [s.es[0]] + Inorder(s');
      Regroup(Inorder(c) + [t.es[i]], Inorder(s.kids[0]), [s.es[0]], Inorder(s'));
    } else {
      assert s.es == [s.es[0]] + s.es[1..];
      Regroup(c.es + [t.es[i]], [], [s.es[0]], s.es[1..]);
    }
    RotateView(t, i, c', s.es[0], s');
  }

  lemma AllSiblings(t: Tree, h: nat)
    requires h > 0 && Balanced(t, h)
    ensures forall j :: 0 <= j < |t.es| ==> Siblings(t.kids[j], t.kids[j + 1])
  {
    forall j | 0 <= j < |t.es| ensures Siblings(t.kids[j], t.kids[j + 1]) {
      assert Balanced(t.kids[j], h - 1) && Balanced(t.kids[j + 1], h - 1);
    }
  }

  /** The kid the deletion goes on with after `btree_fill_node`. */
  function FilledPos(t: Tree, t': Tree, i: nat): nat {
    if i == |t.es| && i > |t'.es| then i - 1 else i
  }

  lemma BalancedPair(t: Tree, h: nat, i: nat, l: Tree, e: Entry, r: Tree)
    requires h > 0 && Balanced(t, h) && i < |t.es|
    requires Balanced(l, h - 1) && Balanced(r, h - 1) && |l.es| >= 1 && |r.es| >= 1
    ensures Balanced(Tree(t.es[i := e], t.kids[i := l][i + 1 := r]), h)
  {
  }

  /** Whatever the keys are, the rotations and the merge keep the shape. */
  lemma TakePrevBalanced(t: Tree, h: nat, i: nat)
    requires h > 0 && Balanced(t, h) && i < |t.es| && |t.kids[i].es| >= 2 && |t.kids[i + 1].es| < MAX_KEYS
    ensures Siblings(t.kids[i], t.kids[i + 1])
    ensures Balanced(TakePrev(t, i), h) && |TakePrev(t, i).kids[i + 1].es| == |t.kids[i + 1].es| + 1
  {
    assert Balanced(t.kids[i], h - 1) && Balanced(t.kids[i + 1], h - 1);
    var t' := TakePrev(t, i);
    assert Balanced(t'.kids[i], h - 1) by {
      var s, n := t.kids[i], |t.kids[i].es| - 1;
      assert t'.kids[i] == Tree(s.es[..n], if s.kids == [] then [] else s.kids[..n + 1]);
    }
    BalancedPair(t, h, i, t'.kids[i], t'.es[i], t'.kids[i + 1]);
  }

  lemma TakeNextBalanced(t: Tree, h: nat, i: nat)
    requires h > 0 && Balanced(t, h) && i < |t.es| && |t.kids[i + 1].es| >= 2 && |t.kids[i].es| < MAX_KEYS
    ensures Siblings(t.kids[i], t.kids[i + 1])
    ensures Balanced(TakeNext(t, i), h) && |TakeNext(t, i).kids[i].es| == |t.kids[i].es| + 1
  {
    assert Balanced(t.kids[i], h - 1) && Balanced(t.kids[i + 1], h - 1);
    var t' := TakeNext(t, i);
    BalancedPair(t, h, i, t'.kids[i], t'.es[i], t'.kids[i + 1]);
  }

  lemma MergeBalanced(t: Tree, h: nat, i: nat)
    requires h > 0 && Balanced(t, h) && i < |t.es| && |t.kids[i].es| == 1 && |t.kids[i + 1].es| == 1
    ensures Siblings(t.kids[i], t.kids[i + 1])
    ensures Balanced(Merge(t, i), h) && |Merge(t, i).kids[i].es| == MAX_KEYS && |Merge(t, i).es| == |t.es| - 1
  {
    var c, s := t.kids[i], t.kids[i + 1];
    assert Balanced(c, h - 1) && Balanced(s, h - 1);
    assert Balanced(Tree(c.es + [Moved(t.es[i])] + MovedAll(s.es), c.kids + s.kids), h - 1);
  }

  /** Filling leaves a kid that can lose a key. */
  lemma FillBalanced(t: Tree, h: nat, i: nat)
    requires h > 0 && Balanced(t, h) && |t.es| >= 1 && i <= |t.es| && |t.kids[i].es| == 1
    ensures forall j :: 0 <= j < |t.es| ==> Siblings(t.kids[j], t.kids[j + 1])
    ensures var t' := Fill(t, i); var j := FilledPos(t, t', i);
      Balanced(t', h) && |t'.es| + 1 >= |t.es| && j < |t'.kids| && |t'.kids[j].es| >= 2
  {
    hide Balanced;
    AllSiblings(t, h);
    NodeCounts(t, h);
    if i != 0 && |t.kids[i - 1].es| >= BRANCHING_FACTOR {
      TakePrevBalanced(t, h, i - 1);
    } else if i != |t.es| && |t.kids[i + 1].es| >= BRANCHING_FACTOR {
      TakeNextBalanced(t, h, i);
    } else if i != |t.es| {
      MergeBalanced(t, h, i);
    } else {
      MergeBalanced(t, h, i - 1);
    }
    NodeCounts(Fill(t, i), h);
  }

  lemma PairFits(t: Tree, h: nat, i: nat)
    requires h > 0 && Balanced(t, h) && i < |t.es| && AllFit(Inorder(t))
    ensures AllFit(t.es) && AllFit(t.kids[i].es) && AllFit(t.kids[i + 1].es)
  {
    hide Inorder;
    assert Balanced(t.kids[i], h - 1) && Balanced(t.kids[i + 1], h - 1);
    OwnFit(t);
    KidFits(t, i);
    OwnFit(t.kids[i]);
    KidFits(t, i + 1);
    OwnFit(t.kids[i + 1]);
  }

  lemma TakePrevKeeps(t: Tree, h: nat, i: nat)
    requires h > 0 && Balanced(t, h) && i < |t.es| && |t.kids[i].es| >= 2 && |t.kids[i + 1].es| < MAX_KEYS
    requires AllFit(Inorder(t))
    ensures Siblings(t.kids[i], t.kids[i + 1]) && Inorder(TakePrev(t, i)) == Inorder(t)
    ensures Balanced(TakePrev(t, i), h) && |TakePrev(t, i).kids[i + 1].es| == |t.kids[i + 1].es| + 1
  {
    hide Balanced, Inorder, AllFit;
    TakePrevBalanced(t, h, i);
    NodeCounts(t, h);
    PairFits(t, h, i);
    TakePrevView(t, i);
  }

  lemma TakeNextKeeps(t: Tree, h: nat, i: nat)
    requires h > 0 && Balanced(t, h) && i < |t.es| && |t.kids[i + 1].es| >= 2 && |t.kids[i].es| < MAX_KEYS
    requires AllFit(Inorder(t))
    ensures Siblings(t.kids[i], t.kids[i + 1]) && Inorder(TakeNext(t, i)) == Inorder(t)
    ensures Balanced(TakeNext(t, i), h) && |TakeNext(t, i).kids[i].es| == |t.kids[i].es| + 1
  {
    hide Balanced, Inorder, AllFit;
    TakeNextBalanced(t, h, i);
    NodeCounts(t, h);
    PairFits(t, h, i);
    TakeNextView(t, i);
  }

  lemma MergeKeeps(t: Tree, h: nat, i: nat)
    requires h > 0 && Balanced(t, h) && i < |t.es| && |t.kids[i].es| == 1 && |t.kids[i + 1].es| == 1
    requires AllFit(Inorder(t))
    ensures Siblings(t.kids[i], t.kids[i + 1]) && Inorder(Merge(t, i)) == Inorder(t)
    ensures Balanced(Merge(t, i), h) && |Merge(t, i).kids[i].es| == MAX_KEYS && |Merge(t, i).es| == |t.es| - 1
  {
    hide Balanced, Inorder, AllFit;
    MergeBalanced(t, h, i);
    NodeCounts(t, h);
    PairFits(t, h, i);
    MergeView(t, i);
  }

  /** Filling keeps the entries and the shape, and leaves a kid that can lose a key. */
  lemma FillKeeps(t: Tree, h: nat, i: nat)
    requires h > 0 && Balanced(t, h) && |t.es| >= 1 && i <= |t.es| && |t.kids[i].es| == 1 && AllFit(Inorder(t))
    ensures forall j :: 0 <= j < |t.es| ==> Siblings(t.kids[j], t.kids[j + 1])
    ensures var t' := Fill(t, i); var j := FilledPos(t, t', i);
      && Inorder(t') == Inorder(t) && Balanced(t', h) && |t'.es| + 1 >= |t.es|
      && j < |t'.kids| && |t'.kids[j].es| >= 2
  {
    hide Balanced, Inorder, AllFit;
    FillBalanced(t, h, i);
    NodeCounts(t, h);
    if i != 0 && |t.kids[i - 1].es| >= BRANCHING_FACTOR {
      TakePrevKeeps(t, h, i - 1);
    } else if i != |t.es| && |t.kids[i + 1].es| >= BRANCHING_FACTOR {
      TakeNextKeeps(t, h, i);
    } else if i != |t.es| {
      MergeKeeps(t, h, i);
    } else {
      MergeKeeps(t, h, i - 1);
    }
  }

  lemma NodeCounts(t: Tree, h: nat)
    requires h > 0 && Balanced(t, h)
    ensures
      && |t.kids| == |t.es| + 1
      && forall j :: 0 <= j < |t.kids| ==> 1 <= |t.kids[j].es| <= MAX_KEYS && Balanced(t.kids[j], h - 1)
  {
    forall j | 0 <= j < |t.kids| ensures 1 <= |t.kids[j].es| <= MAX_KEYS && Balanced(t.kids[j], h - 1) {
      assert Balanced(t.kids[j], h - 1);
    }
  }

  /** `btree_get_predecessor` and `btree_get_successor`: the extreme entries of a subtree. */
  function LastEntry(t: Tree, h: nat): Entry
    requires Balanced(t, h) && |t.es| >= 1
    decreases h
  {
    if h == 0 then t.es[|t.es| - 1] else LastEntry(t.kids[|t.kids| - 1], h - 1)
  }

  function FirstEntry(t: Tree, h: nat): Entry
    requires Balanced(t, h) && |t.es| >= 1
    decreases h
  {
    if h == 0 then t.es[0] else FirstEntry(t.kids[0], h - 1)
  }

  lemma {:induction false} LastIsLast(t: Tree, h: nat)
    requires Balanced(t, h) && |t.es| >= 1
    ensures |Inorder(t)| > 0 && Inorder(t)[|Inorder(t)| - 1] == LastEntry(t, h)
    decreases h
  {
    if h > 0 {
      var n := |t.es|;
      LastIsLast(t.kids[n], h - 1);
      assert t.kids[n := t.kids[n]] == t.kids;
      FlatKid(t.es, t.kids, n, t.kids[n]);
      assert After(t.es, t.kids, n) == [];
    }
  }

  lemma {:induction false} FirstIsFirst(t: Tree, h: nat)
    requires Balanced(t, h) && |t.es| >= 1
    ensures |Inorder(t)| > 0 && Inorder(t)[0] == FirstEntry(t, h)
    decreases h
  {
    if h > 0 {
      FirstIsFirst(t.kids[0], h - 1);
    }
  }

  /** `btree_delete_helper` and `btree_delete_internal`. */
  function DeleteFrom(t: Tree, h: nat, k: Key): Tree
    requires Balanced(t, h) && (h == 0 || |t.es| >= 1)
    decreases h, 1
  {
    var i := LowerPos(t.es, k);
    var found := i < |t.es| && t.es[i].key == k;
    if h == 0 then Tree(if found then t.es[..i] + t.es[i + 1..] else t.es, [])
    else if found then DeleteSeparator(t, h, i)
    else if |t.kids[i].es| < BRANCHING_FACTOR then
      FillBalanced(t, h, i);
      var t' := Fill(t, i);
      var j := FilledPos(t, t', i);
      Tree(t'.es, t'.kids[j := DeleteFrom(t'.kids[j], h - 1, k)])
    else Tree(t.es, t.kids[i := DeleteFrom(t.kids[i], h - 1, k)])
  }

  function DeleteSeparator(t: Tree, h: nat, i: nat): Tree
    requires h > 0 && Balanced(t, h) && i < |t.es|
    decreases h, 0
  {
    var l, r := t.kids[i], t.kids[i + 1];
    if |l.es| >= BRANCHING_FACTOR then
      var e := Moved(LastEntry(l, h - 1));
      Tree(t.es[i := e], t.kids[i := DeleteFrom(l, h - 1, e.key)])
    else if |r.es| >= BRANCHING_FACTOR then
      var e := Moved(FirstEntry(r, h - 1));
      Tree(t.es[i := e], t.kids[i + 1 := DeleteFrom(r, h - 1, e.key)])
    else
      MergeBalanced(t, h, i);
      var t' := Merge(t, i);
      Tree(t'.es, t'.kids[i := DeleteFrom(t'.kids[i], h - 1, Narrow(t.es[i].key))])
  }

  /** Whether the calls of `btree_delete` inside a deletion find what they look for; otherwise they panic. */
  ghost predicate Completes(t: Tree, h: nat, k: Key)
    requires Balanced(t, h) && (h == 0 || |t.es| >= 1)
    decreases h, 1
  {
    var i := LowerPos(t.es, k);
    if h == 0 then true
    else if i < |t.es| && t.es[i].key == k then CompletesAt(t, h, i)
    else if |t.kids[i].es| < BRANCHING_FACTOR then
      FillBalanced(t, h, i);
      var t' := Fill(t, i);
      Completes(t'.kids[FilledPos(t, t', i)], h - 1, k)
    else Completes(t.kids[i], h - 1, k)
  }

  ghost predicate CompletesAt(t: Tree, h: nat, i: nat)
    requires h > 0 && Balanced(t, h) && i < |t.es|
    decreases h, 0
  {
    var l, r := t.kids[i], t.kids[i + 1];
    if |l.es| >= BRANCHING_FACTOR then
      var k := Narrow(LastEntry(l, h - 1).key);
      Search(l, h - 1, k) != 0 && Completes(l, h - 1, k)
    else if |r.es| >= BRANCHING_FACTOR then
      var k := Narrow(FirstEntry(r, h - 1).key);
      Search(r, h - 1, k) != 0 && Completes(r, h - 1, k)
    else
      MergeBalanced(t, h, i);
      var kid, k := Merge(t, i).kids[i], Narrow(t.es[i].key);
      Search(kid, h - 1, k) != 0 && Completes(kid, h - 1, k)
  }

  /** Whatever the keys, in order or not: deletion keeps the tree balanced, and takes at most one key from the root. */
  lemma {:induction false} DeleteFromBalanced(t: Tree, h: nat, k: Key)
    requires Balanced(t, h) && (h == 0 || |t.es| >= 1)
    ensures Balanced(DeleteFrom(t, h, k), h) && |DeleteFrom(t, h, k).es| + 1 >= |t.es|
    decreases h, 1
  {
    hide LowerPos;
    var i := LowerPos(t.es, k);
    if h > 0 {
      if i < |t.es| && t.es[i].key == k {
        DeleteSeparatorBalanced(t, h, i);
      } else if |t.kids[i].es| < BRANCHING_FACTOR {
        FillBalanced(t, h, i);
        var t' := Fill(t, i);
        DeleteIntoBalanced(t', h, FilledPos(t, t', i), k);
      } else {
        DeleteIntoBalanced(t, h, i, k);
      }
    }
  }

  lemma {:induction false} DeleteIntoBalanced(t: Tree, h: nat, j: nat, k: Key)
    requires h > 0 && Balanced(t, h) && j < |t.kids| && |t.kids[j].es| >= 2
    ensures Balanced(Tree(t.es, t.kids[j := DeleteFrom(t.kids[j], h - 1, k)]), h)
    decreases h, 0
  {
    hide DeleteFrom;
    DeleteFromBalanced(t.kids[j], h - 1, k);
    KidBalanced(t, h, j, DeleteFrom(t.kids[j], h - 1, k));
  }

  lemma {:induction false} DeleteSeparatorBalanced(t: Tree, h: nat, i: nat)
    requires h > 0 && Balanced(t, h) && i < |t.es|
    ensures Balanced(DeleteSeparator(t, h, i), h) && |DeleteSeparator(t, h, i).es| + 1 >= |t.es|
    decreases h, 0
  {
    hide DeleteFrom;
    NodeCounts(t, h);
    var l, r := t.kids[i], t.kids[i + 1];
    if |l.es| >= BRANCHING_FACTOR {
      var e := Moved(LastEntry(l, h - 1));
      DeleteFromBalanced(l, h - 1, e.key);
      KidBalanced(Tree(t.es[i := e], t.kids), h, i, DeleteFrom(l, h - 1, e.key));
    } else if |r.es| >= BRANCHING_FACTOR {
      var e := Moved(FirstEntry(r, h - 1));
      DeleteFromBalanced(r, h - 1, e.key);
      KidBalanced(Tree(t.es[i := e], t.kids), h, i + 1, DeleteFrom(r, h - 1, e.key));
    } else {
      MergeBalanced(t, h, i);
      var t', k := Merge(t, i), Narrow(t.es[i].key);
      NodeCounts(t', h);
      DeleteFromBalanced(t'.kids[i], h - 1, k);
      KidBalanced(t', h, i, DeleteFrom(t'.kids[i], h - 1, k));
    }
  }

  /** What a deletion is to achieve: the same shape, at most one key fewer in the node, exactly `k` gone. */
  ghost predicate Deletes(t: Tree, t': Tree, h: nat, k: Key) {
    Balanced(t', h) && |t'.es| + 1 >= |t.es| && Inorder(t') == Remove(Inorder(t), k)
  }

  lemma LeafDelete(es: seq<Entry>, k: Key)
    requires Sorted(es)
    ensures var i := LowerPos(es, k);
      Remove(es, k) == if i < |es| && es[i].key == k then es[..i] + es[i + 1..] else es
  {
    hide LowerPos;
    var i := LowerPos(es, k);
    if i < |es| && es[i].key == k {
      CutAt(es, i);
      RemoveAround(es[..i], [es[i]], es[i + 1..], k);
      assert Remove([es[i]], k) == [];
    } else {
      assert forall j :: 0 <= j < i ==> es[j] == es[..i][j];
      FindNone(es, k);
    }
  }

  lemma CutAt<T>(s: seq<T>, i: nat)
    requires i < |s|
    ensures s == s[..i] + [s[i]] + s[i + 1..] && s[..i] + [] + s[i + 1..] == s[..i] + s[i + 1..]
  {
  }

  lemma KidBalanced(t: Tree, h: nat, j: nat, kid: Tree)
    requires h > 0 && Balanced(t, h) && j < |t.kids| && Balanced(kid, h - 1) && |kid.es| >= 1
    ensures |t.kids| == |t.es| + 1 && Balanced(Tree(t.es, t.kids[j := kid]), h)
  {
  }

  /** Deleting from kid `j`, when the key belongs between the separators of kid `j`. */
  lemma DeleteInKid(t: Tree, h: nat, j: nat, kid: Tree, k: Key)
    requires h > 0 && Balanced(t, h) && j < |t.kids| && |t.kids[j].es| >= 2 && Sorted(Inorder(t))
    requires j > 0 ==> t.es[j - 1].key < k
    requires j < |t.es| ==> k < t.es[j].key
    requires Deletes(t.kids[j], kid, h - 1, k)
    ensures Deletes(t, Tree(t.es, t.kids[j := kid]), h, k)
  {
    KidBalanced(t, h, j, kid);
    hide Flat, Balanced, Sorted, Remove;
    KidBounds(t.es, t.kids, j, k);
    FlatKid(t.es, t.kids, j, kid);
    RemoveAround(Before(t.es, t.kids, j), Inorder(t.kids[j]), After(t.es, t.kids, j), k);
  }

  lemma {:induction false} EntryIn(t: Tree, j: nat)
    requires (t.kids == [] || |t.kids| == |t.es| + 1) && j < |t.es|
    ensures t.es[j] in Inorder(t)
  {
    if t.kids != [] {
      AtEntry(t.es, t.kids, j);
    }
  }

  /** After filling, the key still belongs to the kid the deletion goes on with. */
  lemma FillBounds(t: Tree, h: nat, i: nat, k: Key)
    requires h > 0 && Balanced(t, h) && |t.es| >= 1 && i <= |t.es| && |t.kids[i].es| == 1 && Sorted(Inorder(t))
    requires AllFit(Inorder(t))
    requires i > 0 ==> t.es[i - 1].key < k
    requires i < |t.es| ==> k < t.es[i].key
    requires forall j :: 0 <= j < |t.es| ==> Siblings(t.kids[j], t.kids[j + 1])
    ensures var t' := Fill(t, i); var j := FilledPos(t, t', i);
      j <= |t'.es| && (j > 0 ==> t'.es[j - 1].key < k) && (j < |t'.es| ==> k < t'.es[j].key)
  {
    hide Inorder, Balanced, Sorted, AllFit, TakePrev, TakeNext, Merge;
    NodeCounts(t, h);
    if i != 0 && |t.kids[i - 1].es| >= BRANCHING_FACTOR {
      PrevBounds(t, h, i - 1, k);
    } else if i != |t.es| && |t.kids[i + 1].es| >= BRANCHING_FACTOR {
      NextBounds(t, h, i, k);
    } else if i != |t.es| {
      MergeBounds(t, h, i);
    } else {
      MergeBounds(t, h, i - 1);
    }
  }

  lemma MergeBounds(t: Tree, h: nat, i: nat)
    requires h > 0 && Balanced(t, h) && |t.kids| == |t.es| + 1 && i < |t.es| && Sorted(Inorder(t))
    ensures var t' := Merge(t, i);
      && |t'.es| == |t.es| - 1
      && (i > 0 ==> t'.es[i - 1] == t.es[i - 1] && t.es[i - 1].key < t.es[i].key)
      && (i + 1 < |t.es| ==> t'.es[i] == t.es[i + 1] && t.es[i].key < t.es[i + 1].key)
  {
    hide Inorder, Balanced, Sorted;
    NodeCounts(t, h);
    if i > 0 {
      KidAbove(t, h, i - 1, 0);
      KidBelow(t, h, i, 0);
    }
    if i + 1 < |t.es| {
      KidAbove(t, h, i, 0);
      KidBelow(t, h, i + 1, 0);
    }
  }

  lemma PrevBounds(t: Tree, h: nat, i: nat, k: Key)
    requires h > 0 && Balanced(t, h) && i < |t.es| && Sorted(Inorder(t)) && AllFit(Inorder(t))
    requires |t.kids| == |t.es| + 1 && Siblings(t.kids[i], t.kids[i + 1]) && |t.kids[i].es| >= 1
    requires t.es[i].key < k && (i + 1 < |t.es| ==> k < t.es[i + 1].key)
    ensures var t' := TakePrev(t, i);
      |t'.es| == |t.es| && t'.es[i].key < k && (i + 1 < |t'.es| ==> k < t'.es[i + 1].key)
  {
    hide Inorder, Balanced, Sorted;
    PairFits(t, h, i);
    KidBelow(t, h, i, |t.kids[i].es| - 1);
  }

  lemma NextBounds(t: Tree, h: nat, i: nat, k: Key)
    requires h > 0 && Balanced(t, h) && i < |t.es| && Sorted(Inorder(t)) && AllFit(Inorder(t))
    requires |t.kids| == |t.es| + 1 && Siblings(t.kids[i], t.kids[i + 1]) && |t.kids[i + 1].es| >= 1
    requires k < t.es[i].key && (i > 0 ==> t.es[i - 1].key < k)
    ensures var t' := TakeNext(t, i);
      |t'.es| == |t.es| && k < t'.es[i].key && (i > 0 ==> t'.es[i - 1].key < k)
  {
    hide Inorder, Balanced, Sorted;
    PairFits(t, h, i);
    KidAbove(t, h, i, 0);
  }

  lemma KidBelow(t: Tree, h: nat, i: nat, j: nat)
    requires h > 0 && Balanced(t, h) && Sorted(Inorder(t)) && i < |t.es| && j < |t.kids[i].es|
    ensures t.kids[i].es[j].key < t.es[i].key
  {
    hide Flat;
    assert Balanced(t.kids[i], h - 1);
    AtEntry(t.es, t.kids, i);
    var b := Inorder(t.kids[i]);
    var a := Before(t.es, t.kids, i) + b;
    SortedParts(a, t.es[i], Flat(t.es[i + 1..], t.kids[i + 1..]));
    EntryIn(t.kids[i], j);
    var x :| 0 <= x < |b| && b[x] == t.kids[i].es[j];
    assert a[|a| - |b| + x] == b[x];
  }

  lemma KidAbove(t: Tree, h: nat, i: nat, j: nat)
    requires h > 0 && Balanced(t, h) && Sorted(Inorder(t)) && i < |t.es| && j < |t.kids[i + 1].es|
    ensures t.es[i].key < t.kids[i + 1].es[j].key
  {
    assert Balanced(t.kids[i + 1], h - 1);
    AtEntry(t.es, t.kids, i);
    var b := Inorder(t.kids[i + 1]);
    var c := Flat(t.es[i + 1..], t.kids[i + 1..]);
    SortedParts(Before(t.es, t.kids, i) + Inorder(t.kids[i]), t.es[i], c);
    EntryIn(t.kids[i + 1], j);
    var x :| 0 <= x < |b| && b[x] == t.kids[i + 1].es[j];
    assert c[x] == b[x];
  }

  /** Removing the last, or the first, entry of a sorted sequence by its key. */
  lemma RemoveLast(x: seq<Entry>, e: Entry)
    requires Sorted(x + [e])
    ensures Remove(x + [e], e.key) == x
  {
    assert x + [e] == x + [e] + [];
    SortedParts(x, e, []);
    RemoveAround(x, [e], [], e.key);
    assert Remove([e], e.key) == [];
  }

  lemma SeparatorGone(t: Tree, i: nat)
    requires |t.kids| == |t.es| + 1 && i < |t.es| && Sorted(Inorder(t))
    ensures var a, c := Before(t.es, t.kids, i) + Inorder(t.kids[i]), Flat(t.es[i + 1..], t.kids[i + 1..]);
      Inorder(t) == a + [t.es[i]] + c && Remove(Inorder(t), t.es[i].key) == a + c && Sorted(a) && Sorted(c)
  {
    hide Flat;
    var a, c := Before(t.es, t.kids, i) + Inorder(t.kids[i]), Flat(t.es[i + 1..], t.kids[i + 1..]);
    AtEntry(t.es, t.kids, i);
    SortedParts(a, t.es[i], c);
    RemoveAround(a, [t.es[i]], c, t.es[i].key);
    assert Remove([t.es[i]], t.es[i].key) == [];
    assert a + [] + c == a + c;
  }

  /** The separator is replaced by the last entry of the kid before it. */
  lemma ByPredecessor(t: Tree, h: nat, i: nat, kid: Tree)
    requires h > 0 && Balanced(t, h) && i < |t.es| && Sorted(Inorder(t)) && |t.kids[i].es| >= 2
    requires Deletes(t.kids[i], kid, h - 1, LastEntry(t.kids[i], h - 1).key)
    ensures Deletes(t, Tree(t.es[i := LastEntry(t.kids[i], h - 1)], t.kids[i := kid]), h, t.es[i].key)
  {
    hide Flat;
    var b, e := Inorder(t.kids[i]), LastEntry(t.kids[i], h - 1);
    LastIsLast(t.kids[i], h - 1);
    var x := b[..|b| - 1];
    assert b == x + [e];
    SeparatorGone(t, i);
    assert t.kids[i := t.kids[i]] == t.kids;
    SortedSlices(Before(t.es, t.kids, i), b, []);
    assert Before(t.es, t.kids, i) + b + [] == Before(t.es, t.kids, i) + b;
    RemoveLast(x, e);
    SeparatorView(t, i, kid, e);
    Regroup(Before(t.es, t.kids, i), x, [e], Flat(t.es[i + 1..], t.kids[i + 1..]));
    assert Before(t.es, t.kids, i) + (x + [e] + Flat(t.es[i + 1..], t.kids[i + 1..]))
        == Before(t.es, t.kids, i) + (x + [e]) + Flat(t.es[i + 1..], t.kids[i + 1..]);
  }

  lemma SeparatorView(t: Tree, i: nat, kid: Tree, e: Entry)
    requires |t.kids| == |t.es| + 1 && i < |t.es|
    ensures Inorder(Tree(t.es[i := e], t.kids[i := kid]))
         == Before(t.es, t.kids, i) + Inorder(kid) + [e] + Flat(t.es[i + 1..], t.kids[i + 1..])
  {
    var es, kids := t.es[i := e], t.kids[i := kid];
    AtEntry(es, kids, i);
    assert es[i + 1..] == t.es[i + 1..] && kids[i + 1..] == t.kids[i + 1..];
    BeforeSame(t.es, es, t.kids, kids, i);
  }

  lemma {:induction false} BeforeSame(es: seq<Entry>, es': seq<Entry>, kids: seq<Tree>, kids': seq<Tree>, i: nat)
    requires i <= |es| < |kids| && |es'| == |es| && |kids'| == |kids| && es[..i] == es'[..i] && kids[..i] == kids'[..i]
    ensures Before(es, kids, i) == Before(es', kids', i)
  {
    if i > 0 {
      assert es[1..][..i - 1] == es[..i][1..] == es'[1..][..i - 1];
      assert kids[1..][..i - 1] == kids[..i][1..] == kids'[1..][..i - 1];
      assert es[0] == es[..i][0] == es'[0] && kids[0] == kids[..i][0] == kids'[0];
      BeforeSame(es[1..], es'[1..], kids[1..], kids'[1..], i - 1);
    }
  }

  lemma RemoveFirst(e: Entry, y: seq<Entry>)
    ensures Remove([e] + y, e.key) == y
  {
  }

  /** The separator is replaced by the first entry of the kid after it. */
  lemma BySuccessor(t: Tree, h: nat, i: nat, kid: Tree)
    requires h > 0 && Balanced(t, h) && i < |t.es| && Sorted(Inorder(t)) && |t.kids[i + 1].es| >= 2
    requires Deletes(t.kids[i + 1], kid, h - 1, FirstEntry(t.kids[i + 1], h - 1).key)
    ensures Deletes(t, Tree(t.es[i := FirstEntry(t.kids[i + 1], h - 1)], t.kids[i + 1 := kid]), h, t.es[i].key)
  {
    hide Flat;
    var b, e := Inorder(t.kids[i + 1]), FirstEntry(t.kids[i + 1], h - 1);
    FirstIsFirst(t.kids[i + 1], h - 1);
    assert b == [e] + b[1..];
    RemoveFirst(e, b[1..]);
    SeparatorGone(t, i);
    NextKidView(t, i, kid, e);
    var a, z := Before(t.es, t.kids, i) + Inorder(t.kids[i]), After(t.es[i + 1..], t.kids[i + 1..], 0);
    Regroup(a, [e], b[1..], z);
  }

  lemma NextKidView(t: Tree, i: nat, kid: Tree, e: Entry)
    requires |t.kids| == |t.es| + 1 && i < |t.es|
    ensures var a, z := Before(t.es, t.kids, i) + Inorder(t.kids[i]), After(t.es[i + 1..], t.kids[i + 1..], 0);
      && Flat(t.es[i + 1..], t.kids[i + 1..]) == Inorder(t.kids[i + 1]) + z
      && Inorder(Tree(t.es[i := e], t.kids[i + 1 := kid])) == a + [e] + Inorder(kid) + z
  {
    hide Flat;
    var es, kids := t.es[i + 1..], t.kids[i + 1..];
    assert kids[0 := kids[0]] == kids;
    FlatKid(es, kids, 0, kids[0]);
    FlatKid(es, kids, 0, kid);
    var es', kids' := t.es[i := e], t.kids[i + 1 := kid];
    AtEntry(es', kids', i);
    assert es'[i + 1..] == es && kids'[i + 1..] == kids[0 := kid];
    BeforeSame(t.es, es', t.kids, kids', i);
    Regroup(Before(t.es, t.kids, i) + Inorder(t.kids[i]), [e], Inorder(kid), After(es, kids, 0));
  }

  lemma ByMerge(t: Tree, h: nat, i: nat, kid: Tree)
    requires h > 0 && Balanced(t, h) && i < |t.es| && Sorted(Inorder(t)) && |t.kids[i].es| == 1
    requires |t.kids[i + 1].es| == 1 && AllFit(Inorder(t))
    requires var t' := Merge(t, i); i < |t'.kids| && Deletes(t'.kids[i], kid, h - 1, t.es[i].key)
    ensures Deletes(t, Tree(Merge(t, i).es, Merge(t, i).kids[i := kid]), h, t.es[i].key)
  {
    hide Inorder, Balanced;
    MergeKeeps(t, h, i);
    NodeCounts(t, h);
    var t' := Merge(t, i);
    if i > 0 {
      KidAbove(t, h, i - 1, 0);
      KidBelow(t, h, i, 0);
    }
    if i + 1 < |t.es| {
      KidAbove(t, h, i, 0);
      KidBelow(t, h, i + 1, 0);
    }
    DeleteInKid(t', h, i, kid, t.es[i].key);
  }

  /** Deletion removes exactly the entry with the given key and keeps the tree balanced. */
  lemma {:induction false} DeleteFromDeletes(t: Tree, h: nat, k: Key)
    requires Balanced(t, h) && (h == 0 || |t.es| >= 1) && Sorted(Inorder(t)) && AllFit(Inorder(t))
    ensures Deletes(t, DeleteFrom(t, h, k), h, k)
    decreases h, 1
  {
    hide LowerPos, Flat;
    var i := LowerPos(t.es, k);
    if h == 0 {
      LeafInorder(t);
      LeafDelete(t.es, k);
      LeafInorder(DeleteFrom(t, h, k));
    } else if i < |t.es| && t.es[i].key == k {
      DeleteSeparatorDeletes(t, h, i);
    } else {
      assert i > 0 ==> t.es[..i][i - 1].key < k;
      if |t.kids[i].es| < BRANCHING_FACTOR {
        FillKeeps(t, h, i);
        FillBounds(t, h, i, k);
        var t' := Fill(t, i);
        DeleteInto(t', h, FilledPos(t, t', i), k);
      } else {
        DeleteInto(t, h, i, k);
      }
    }
  }

  lemma LeafInorder(t: Tree)
    requires t.kids == []
    ensures Inorder(t) == t.es
  {
  }

  lemma {:induction false} DeleteInto(t: Tree, h: nat, j: nat, k: Key)
    requires h > 0 && Balanced(t, h) && j < |t.kids| && |t.kids[j].es| >= 2 && Sorted(Inorder(t)) && AllFit(Inorder(t))
    requires j > 0 ==> t.es[j - 1].key < k
    requires j < |t.es| ==> k < t.es[j].key
    ensures Deletes(t, Tree(t.es, t.kids[j := DeleteFrom(t.kids[j], h - 1, k)]), h, k)
    decreases h, 0
  {
    hide Flat, DeleteFrom;
    KidBounds(t.es, t.kids, j, k);
    KidFits(t, j);
    DeleteFromDeletes(t.kids[j], h - 1, k);
    DeleteInKid(t, h, j, DeleteFrom(t.kids[j], h - 1, k), k);
  }

  lemma {:induction false} DeleteSeparatorDeletes(t: Tree, h: nat, i: nat)
    requires h > 0 && Balanced(t, h) && i < |t.es| && Sorted(Inorder(t)) && AllFit(Inorder(t))
    ensures Deletes(t, DeleteSeparator(t, h, i), h, t.es[i].key)
    decreases h, 0
  {
    hide Flat, DeleteFrom, Deletes;
    NodeCounts(t, h);
    var l, r := t.kids[i], t.kids[i + 1];
    KidSorted(t, i);
    KidSorted(t, i + 1);
    OwnFit(t);
    EndsFit(t, h, i);
    if |l.es| >= BRANCHING_FACTOR {
      DeleteFromDeletes(l, h - 1, LastEntry(l, h - 1).key);
      ByPredecessor(t, h, i, DeleteFrom(l, h - 1, LastEntry(l, h - 1).key));
    } else if |r.es| >= BRANCHING_FACTOR {
      DeleteFromDeletes(r, h - 1, FirstEntry(r, h - 1).key);
      BySuccessor(t, h, i, DeleteFrom(r, h - 1, FirstEntry(r, h - 1).key));
    } else {
      MergeKeeps(t, h, i);
      var t' := Merge(t, i);
      NodeCounts(t', h);
      KidSorted(t', i);
      KidFits(t', i);
      DeleteFromDeletes(t'.kids[i], h - 1, t.es[i].key);
      ByMerge(t, h, i, DeleteFrom(t'.kids[i], h - 1, t.es[i].key));
    }
  }

  lemma EndsFit(t: Tree, h: nat, i: nat)
    requires h > 0 && Balanced(t, h) && i < |t.es| && AllFit(Inorder(t))
    ensures var l, r := t.kids[i], t.kids[i + 1];
      && AllFit(Inorder(l)) && AllFit(Inorder(r))
      && Balanced(l, h - 1) && Balanced(r, h - 1) && |l.es| >= 1 && |r.es| >= 1
      && FitsInt(LastEntry(l, h - 1).key) && FitsInt(FirstEntry(r, h - 1).key)
  {
    hide Inorder;
    NodeCounts(t, h);
    KidFits(t, i);
    KidFits(t, i + 1);
    LastIsLast(t.kids[i], h - 1);
    FirstIsFirst(t.kids[i + 1], h - 1);
  }

  lemma KidSorted(t: Tree, i: nat)
    requires |t.kids| == |t.es| + 1 && i < |t.kids| && Sorted(Inorder(t))
    ensures Sorted(Inorder(t.kids[i]))
  {
    hide Flat;
    assert t.kids[i := t.kids[i]] == t.kids;
    FlatKid(t.es, t.kids, i, t.kids[i]);
    SortedSlices(Before(t.es, t.kids, i), Inorder(t.kids[i]), After(t.es, t.kids, i));
  }

  // ------------------------------------------------------------- the whole index

  /** What the caller sees: a root, which may be NULL, and the height below it; all keys fit an `int`. */
  ghost predicate IsIndex(root: Option<Tree>, h: nat) {
    root.Some? ==>
      && Balanced(root.value, h) && |root.value.es| >= 1
      && Sorted(Inorder(root.value)) && AllFit(Inorder(root.value))
  }

  function Entries(root: Option<Tree>): seq<Entry> {
    if root.None? then [] else Inorder(root.value)
  }

  /** The index as a map from page numbers to frames. */
  function AsMap(s: seq<Entry>): map<Key, Data> {
    if s == [] then map[] else AsMap(s[1..])[s[0].key := s[0].data]
  }

  /** `btree_insert`: split a full root first. */
  function Insert(root: Option<Tree>, h: nat, e: Entry): (Tree, nat)
    requires root.Some? ==> Balanced(root.value, h) && |root.value.es| >= 1
  {
    if root.None? then (InsertNonfull(Tree([], []), 0, e), 0)
    else if |root.value.es| == MAX_KEYS then
      RootDivides(root.value, h);
      (InsertNonfull(SplitKid(Tree([], [root.value]), 0), h + 1, e), h + 1)
    else (InsertNonfull(root.value, h, e), h)
  }

  /** `btree_delete`: a root without keys is replaced by its only kid, or by NULL. */
  function Delete(root: Tree, h: nat, k: Key): (Option<Tree>, nat)
    requires Balanced(root, h) && |root.es| >= 1
  {
    DeleteFromBalanced(root, h, k);
    var t := DeleteFrom(root, h, k);
    if |t.es| > 0 then (Some(t), h) else if h == 0 then (None, 0) else (Some(t.kids[0]), h - 1)
  }

  lemma RootDivides(t: Tree, h: nat)
    requires Balanced(t, h) && |t.es| == MAX_KEYS
    ensures var top := Tree([], [t]);
      Full(t) && Balanced(top, h + 1) && Balanced(SplitKid(top, 0), h + 1) && |SplitKid(top, 0).es| == 1
  {
    var top := Tree([], [t]);
    assert Balanced(top, h + 1);
    SplitBalanced(top, h + 1, 0);
  }

  lemma RootSplit(t: Tree, h: nat)
    requires Balanced(t, h) && |t.es| == MAX_KEYS && AllFit(Inorder(t))
    ensures Full(t) && Inorder(SplitKid(Tree([], [t]), 0)) == Inorder(t)
  {
    var top := Tree([], [t]);
    RootDivides(t, h);
    OnlyKidInorder(top);
    SplitKeeps(top, h + 1, 0);
  }

  /** The new entry itself moves only in later operations, so its key need not fit. */
  lemma InsertInserts(root: Option<Tree>, h: nat, e: Entry)
    requires IsIndex(root, h) && Lacks(Entries(root), e.key)
    ensures var (t, h') := Insert(root, h, e);
      && Inorder(t) == InsertSorted(Entries(root), e) && Balanced(t, h') && |t.es| >= 1 && Sorted(Inorder(t))
      && (FitsInt(e.key) <==> IsIndex(Some(t), h'))
  {
    hide InsertNonfull, Flat;
    if root.None? {
      LeafInorder(Tree([], []));
      InsertNonfullInserts(Tree([], []), 0, e);
    } else if |root.value.es| == MAX_KEYS {
      RootDivides(root.value, h);
      RootSplit(root.value, h);
      InsertNonfullInserts(SplitKid(Tree([], [root.value]), 0), h + 1, e);
    } else {
      InsertNonfullInserts(root.value, h, e);
    }
    InsertedSorted(Entries(root), e);
    InsertedFits(Entries(root), e);
  }

  lemma {:induction false} InsertedFits(s: seq<Entry>, e: Entry)
    requires AllFit(s)
    ensures AllFit(InsertSorted(s, e)) <==> FitsInt(e.key)
  {
    var r := InsertSorted(s, e);
    if s != [] && s[0].key <= e.key {
      InsertedFits(s[1..], e);
      assert r[1..] == InsertSorted(s[1..], e);
      assert forall i :: 0 <= i < |r[1..]| ==> r[1..][i] == r[i + 1];
      assert AllFit(r[1..]) ==> AllFit(r) by {
        assert forall i :: 0 < i < |r| ==> r[i] == r[1..][i - 1];
      }
    } else {
      assert r[0] == e && forall i :: 0 < i < |r| ==> r[i] == s[i - 1];
    }
  }

  lemma {:induction false} RemovedFits(s: seq<Entry>, k: Key)
    requires AllFit(s)
    ensures AllFit(Remove(s, k))
  {
    if s != [] && s[0].key != k {
      RemovedFits(s[1..], k);
    }
  }

  lemma DeleteDeletes(root: Tree, h: nat, k: Key)
    requires IsIndex(Some(root), h)
    ensures var (r, h') := Delete(root, h, k);
      IsIndex(r, h') && Entries(r) == Remove(Inorder(root), k)
  {
    hide DeleteFrom, Flat, Remove, Sorted;
    DeleteFromDeletes(root, h, k);
    RemovedSorted(Inorder(root), k);
    RemovedFits(Inorder(root), k);
    var t := DeleteFrom(root, h, k);
    if |t.es| == 0 {
      if h == 0 {
        LeafInorder(t);
      } else {
        assert Balanced(t.kids[0], h - 1);
        OnlyKidInorder(t);
      }
    }
  }

  lemma OnlyKidInorder(t: Tree)
    requires t.es == [] && |t.kids| == 1
    ensures Inorder(t) == Inorder(t.kids[0])
  {
  }

  lemma {:induction false} InsertedSorted(s: seq<Entry>, e: Entry)
    requires Sorted(s) && Lacks(s, e.key)
    ensures Sorted(InsertSorted(s, e)) && AsMap(InsertSorted(s, e)) == AsMap(s)[e.key := e.data]
  {
    if s != [] && s[0].key <= e.key {
      InsertedSorted(s[1..], e);
      InsertedKeys(s[1..], e, s[0].key);
    }
  }

  lemma {:induction false} InsertedKeys(s: seq<Entry>, e: Entry, k: Key)
    requires Above(s, k) && k < e.key
    ensures Above(InsertSorted(s, e), k)
  {
    if s != [] && s[0].key <= e.key {
      InsertedKeys(s[1..], e, k);
    }
  }

  lemma RemovedSorted(s: seq<Entry>, k: Key)
    requires Sorted(s)
    ensures Sorted(Remove(s, k)) && AsMap(Remove(s, k)) == AsMap(s) - {k}
  {
    RemovedOrder(s, k);
    RemovedMap(s, k);
  }

  lemma {:induction false} RemovedOrder(s: seq<Entry>, k: Key)
    requires Sorted(s)
    ensures Sorted(Remove(s, k))
  {
    if s != [] && s[0].key != k {
      RemovedOrder(s[1..], k);
      RemovedKeys(s[1..], k, s[0].key);
    }
  }

  lemma {:induction false} RemovedMap(s: seq<Entry>, k: Key)
    requires Sorted(s)
    ensures AsMap(Remove(s, k)) == AsMap(s) - {k}
  {
    if s != [] {
      SortedTail(s);
      if s[0].key != k {
        RemovedMap(s[1..], k);
        assert Remove(s, k)[1..] == Remove(s[1..], k);
        Without(AsMap(s[1..]), s[0].key, s[0].data, k);
      } else {
        WithoutNew(AsMap(s[1..]), k, s[0].data);
      }
    }
  }

  lemma SortedTail(s: seq<Entry>)
    requires Sorted(s) && s != []
    ensures Sorted(s[1..]) && s[0].key !in AsMap(s[1..])
  {
    MapKeys(s[1..]);
  }

  lemma Without(m: map<Key, Data>, a: Key, d: Data, k: Key)
    requires a != k
    ensures (m - {k})[a := d] == m[a := d] - {k}
  {
  }

  lemma WithoutNew(m: map<Key, Data>, k: Key, d: Data)
    requires k !in m
    ensures m[k := d] - {k} == m
  {
  }

  lemma {:induction false} RemovedKeys(s: seq<Entry>, k: Key, low: Key)
    requires Above(s, low)
    ensures Above(Remove(s, k), low)
  {
    if s != [] && s[0].key != k {
      RemovedKeys(s[1..], k, low);
    }
  }

  lemma {:induction false} MapKeys(s: seq<Entry>)
    ensures forall k :: k in AsMap(s) <==> exists i :: 0 <= i < |s| && s[i].key == k
  {
    if s != [] {
      MapKeys(s[1..]);
      forall k ensures k in AsMap(s) <==> exists i :: 0 <= i < |s| && s[i].key == k {
        assert k in AsMap(s) <==> k == s[0].key || k in AsMap(s[1..]);
        if i :| 0 <= i < |s[1..]| && s[1..][i].key == k {
          assert s[i + 1].key == k;
        }
        if i :| 0 < i < |s| && s[i].key == k {
          assert s[1..][i - 1].key == k;
        }
      }
    }
  }

  lemma {:induction false} FindIsLookup(s: seq<Entry>, k: Key)
    ensures Find(s, k) == if k in AsMap(s) then AsMap(s)[k] else 0
  {
    if s != [] {
      FindIsLookup(s[1..], k);
    }
  }

  // --------------------------------------------------------------- main results

  /** From every index, `btree_search` is map lookup. */
  lemma SearchIsLookup(t: Tree, h: nat, k: Key)
    requires IsIndex(Some(t), h)
    ensures Search(t, h, k) == if k in AsMap(Inorder(t)) then AsMap(Inorder(t))[k] else 0
  {
    SearchFinds(t, h, k);
    FindIsLookup(Inorder(t), k);
  }

  /**
   * From every index, `btree_insert` of an absent key is map update, and the result is an index again if and
   * only if the key fits an `int`.
   */
  lemma InsertIsUpdate(root: Option<Tree>, h: nat, e: Entry)
    requires IsIndex(root, h) && e.key !in AsMap(Entries(root))
    ensures var (t, h') := Insert(root, h, e);
      (FitsInt(e.key) <==> IsIndex(Some(t), h')) && AsMap(Inorder(t)) == AsMap(Entries(root))[e.key := e.data]
  {
    hide Insert;
    var s := Entries(root);
    MapKeys(s);
    assert Sorted(s) && Lacks(s, e.key);
    InsertInserts(root, h, e);
    InsertedSorted(s, e);
  }

  /** From every index, `btree_delete` is map removal, and the result is an index again. */
  lemma DeleteIsRemoval(root: Tree, h: nat, k: Key)
    requires IsIndex(Some(root), h)
    ensures var (r, h') := Delete(root, h, k);
      IsIndex(r, h') && AsMap(Entries(r)) == AsMap(Inorder(root)) - {k}
  {
    hide Delete;
    DeleteDeletes(root, h, k);
    RemovedSorted(Inorder(root), k);
  }
}
