/**
 * One B-tree node as it is stored: parallel arrays of keys and data, an array of
 * children and two counts.  Every array helper is proved against the sequence
 * operation it stands for, and the helpers that move entries between three nodes
 * against the cells that `BTreeMemory` writes.  Keys are 64-bit words, but the helpers
 * take and return them as `int`.
 */
module NodeArrays {
  import opened BTree
  import opened BTreeMemory

  const MAX_CHILDREN := 2 * BRANCHING_FACTOR

  /** The entries in the first `n` slots. */
  function Zip(keys: seq<Key>, data: seq<Data>, n: nat): (s: seq<Entry>)
    requires n <= |keys| && n <= |data|
    ensures |s| == n
  {
    seq(n, i requires 0 <= i < n => Entry(keys[i], data[i]))
  }

  class Node {
    const keys: array<Key>
    const data: array<Data>
    const children: array<Ptr>
    var nKeys: nat
    var nChildren: nat
    var isLeaf: bool

    ghost predicate Valid()
      reads this
    {
      keys.Length == MAX_KEYS && data.Length == MAX_KEYS && children.Length == MAX_CHILDREN
      && nKeys <= MAX_KEYS && nChildren <= MAX_CHILDREN
      && keys as object != data && keys as object != children && data != children
    }

    ghost function Arrays(): set<object> {
      {keys as object, data as object, children as object}
    }

    ghost function Entries(): seq<Entry>
      requires Valid()
      reads this, keys, data
    {
      Zip(keys[..], data[..], nKeys)
    }

    ghost function Value(): (c: Cell)
      requires Valid()
      reads this, keys, data, children
      ensures |c.es| == nKeys && |c.children| == nChildren && c.isLeaf == isLeaf
    {
      Cell(Entries(), children[..nChildren], isLeaf)
    }

    /** `btree_node_create`: all zero, and a leaf. */
    constructor ()
      ensures Valid() && Value() == Cell([], [], true) && fresh(keys) && fresh(data) && fresh(children)
    {
      keys := new Key[MAX_KEYS](_ => 0);
      data := new Data[MAX_KEYS](_ => 0);
      children := new Ptr[MAX_CHILDREN](_ => NULL);
      nKeys, nChildren, isLeaf := 0, 0, true;
    }

    /** The assignment `is_leaf = from->is_leaf`. */
    method CopyKind(from: Node)
      requires Valid() && from.Valid()
      modifies this`isLeaf
      ensures Valid() && Value() == old(Value()).(isLeaf := from.isLeaf)
    {
      isLeaf := from.isLeaf;
    }

    /** `btree_pop_key`: every later slot moves down, up to the end of the array; the key is returned as an `int`. */
    method PopKey(i: nat) returns (e: Entry)
      requires Valid() && i < nKeys
      modifies this`nKeys, keys, data
      ensures Valid() && e == Moved(old(Value()).es[i])
      ensures Value() == old(Value()).(es := old(Value()).es[..i] + old(Value()).es[i + 1..])
    {
      e := Entry(Narrow(keys[i]), data[i]);
      var j := i;
      while j < MAX_KEYS - 1
        modifies keys, data
        invariant i <= j <= MAX_KEYS - 1
        invariant forall k :: 0 <= k < MAX_KEYS ==> keys[k] == (if i <= k < j then old(keys[k + 1]) else old(keys[k]))
        invariant forall k :: 0 <= k < MAX_KEYS ==> data[k] == (if i <= k < j then old(data[k + 1]) else old(data[k]))
      {
        keys[j], data[j] := keys[j + 1], data[j + 1];
        j := j + 1;
      }
      keys[nKeys - 1], data[nKeys - 1] := 0, 0;
      nKeys := nKeys - 1;
    }

    method EntryAt(i: nat) returns (e: Entry)
      requires Valid() && i < nKeys
      ensures e == Value().es[i]
    {
      e := Entry(keys[i], data[i]);
    }

    method ChildAt(i: nat) returns (c: Ptr)
      requires Valid() && i < nChildren
      ensures c == Value().children[i]
    {
      c := children[i];
    }

    /** `btree_append_key`; the key is an `int`. */
    method AppendKey(e: Entry)
      requires Valid() && nKeys < MAX_KEYS
      modifies this`nKeys, keys, data
      ensures Valid() && Value() == old(Value()).(es := old(Value()).es + [Moved(e)])
    {
      keys[nKeys], data[nKeys] := Narrow(e.key), e.data;
      nKeys := nKeys + 1;
    }

    /** `btree_insert_key`; the key is an `int`. */
    method InsertKey(e: Entry, i: nat)
      requires Valid() && nKeys < MAX_KEYS && i <= nKeys
      modifies this`nKeys, keys, data
      ensures Valid() && Value() == old(Value()).(es := SpliceEs(old(Value()).es, i, Moved(e)))
    {
      var j := MAX_KEYS - 1;
      while j > i
        modifies keys, data
        invariant i <= j <= MAX_KEYS - 1
        invariant forall k :: 0 <= k < MAX_KEYS ==> keys[k] == (if j < k then old(keys[k - 1]) else old(keys[k]))
        invariant forall k :: 0 <= k < MAX_KEYS ==> data[k] == (if j < k then old(data[k - 1]) else old(data[k]))
      {
        keys[j], data[j] := keys[j - 1], data[j - 1];
        j := j - 1;
      }
      keys[i], data[i] := Narrow(e.key), e.data;
      ZipSpliced(old(keys[..]), old(data[..]), keys[..], data[..], nKeys, i, Moved(e));
      nKeys := nKeys + 1;
    }

    /** `btree_pop_child`. */
    method PopChild(i: nat) returns (c: Ptr)
      requires Valid() && i < nChildren
      modifies this`nChildren, children
      ensures Valid() && c == old(Value()).children[i]
      ensures Value() == old(Value()).(children := old(Value()).children[..i] + old(Value()).children[i + 1..])
    {
      c := children[i];
      var j := i;
      while j < MAX_CHILDREN - 1
        modifies children
        invariant i <= j <= MAX_CHILDREN - 1
        invariant forall k ::
          0 <= k < MAX_CHILDREN ==> children[k] == (if i <= k < j then old(children[k + 1]) else old(children[k]))
      {
        children[j] := children[j + 1];
        j := j + 1;
      }
      children[nChildren - 1] := NULL;
      nChildren := nChildren - 1;
    }

    /** `btree_append_child`. */
    method AppendChild(c: Ptr)
      requires Valid() && nChildren < MAX_CHILDREN
      modifies this`nChildren, this`isLeaf, children
      ensures Valid() && Value() == old(Value()).(children := old(Value()).children + [c], isLeaf := false)
    {
      children[nChildren] := c;
      nChildren := nChildren + 1;
      isLeaf := false;
    }

    /** `btree_insert_child`. */
    method InsertChild(c: Ptr, i: nat)
      requires Valid() && nChildren < MAX_CHILDREN && i <= nChildren
      modifies this`nChildren, this`isLeaf, children
      ensures Valid()
      ensures Value()
          == old(Value()).(children := old(Value()).children[..i] + [c] + old(Value()).children[i..], isLeaf := false)
    {
      var j := MAX_CHILDREN - 1;
      while j > i
        modifies children
        invariant i <= j <= MAX_CHILDREN - 1
        invariant forall k ::
          0 <= k < MAX_CHILDREN ==> children[k] == (if j < k then old(children[k - 1]) else old(children[k]))
      {
        children[j] := children[j - 1];
        j := j - 1;
      }
      children[i] := c;
      nChildren := nChildren + 1;
      isLeaf := false;
    }

    /** The leaf case of `btree_insert_nonfull`: shift larger keys up while looking for the place. */
    method InsertInLeaf(e: Entry)
      requires Valid() && nKeys < MAX_KEYS
      modifies this`nKeys, keys, data
      ensures Valid() && Value() == old(Value()).(es := SpliceEs(old(Value()).es, UpperPos(old(Value()).es, e.key), e))
    {
      hide UpperPos;
      var p := ShiftUp(e.key);
      keys[p], data[p] := e.key, e.data;
      ZipSpliced(old(keys[..]), old(data[..]), keys[..], data[..], nKeys, p, e);
      nKeys := nKeys + 1;
    }

    method ShiftUp(key: Key) returns (p: nat)
      requires Valid() && nKeys < MAX_KEYS
      modifies keys, data
      ensures p <= nKeys && p == UpperPos(old(Entries()), key)
      ensures forall k :: 0 <= k < p ==> keys[k] == old(keys[k]) && data[k] == old(data[k])
      ensures forall k :: p < k <= nKeys ==> keys[k] == old(keys[k - 1]) && data[k] == old(data[k - 1])
    {
      hide UpperPos, Above;
      ghost var es := Entries();
      var i := nKeys - 1;
      NoneAbove(es, key);
      while i >= 0 && key < keys[i]
        invariant -1 <= i < nKeys && Above(es[i + 1..], key)
        invariant forall k :: 0 <= k <= i ==> keys[k] == old(keys[k]) && data[k] == old(data[k])
        invariant forall k :: i + 1 < k <= nKeys ==> keys[k] == old(keys[k - 1]) && data[k] == old(data[k - 1])
      {
        OneMoreAbove(es, i, key);
        keys[i + 1], data[i + 1] := keys[i], data[i];
        i := i - 1;
      }
      assert i >= 0 ==> es[i].key <= key;
      UpperPosUnique(es, key, i + 1);
      p := i + 1;
    }
  }

  /** Entries shifted up by one from slot `p` on, with `e` in that slot. */
  lemma ZipSpliced(keys: seq<Key>, data: seq<Data>, keys': seq<Key>, data': seq<Data>, n: nat, p: nat, e: Entry)
    requires p <= n < |keys| && |data| == |keys| && |keys'| == |keys| && |data'| == |data|
    requires keys'[p] == e.key && data'[p] == e.data
    requires forall k :: 0 <= k < p ==> keys'[k] == keys[k] && data'[k] == data[k]
    requires forall k :: p < k <= n ==> keys'[k] == keys[k - 1] && data'[k] == data[k - 1]
    ensures Zip(keys', data', n + 1) == SpliceEs(Zip(keys, data, n), p, e)
  {
    var z := Zip(keys, data, n);
    forall k | 0 <= k <= n ensures Zip(keys', data', n + 1)[k] == SpliceEs(z, p, e)[k] {
      assert SpliceEs(z, p, e)[k] == if k < p then z[k] else if k == p then e else z[k - 1];
    }
  }

  lemma NoneAbove(es: seq<Entry>, k: Key)
    ensures Above(es[|es|..], k)
  {
  }

  lemma OneMoreAbove(es: seq<Entry>, i: nat, k: Key)
    requires i < |es| && k < es[i].key && Above(es[i + 1..], k)
    ensures Above(es[i..], k)
  {
    assert es[i..] == [es[i]] + es[i + 1..];
  }

  ghost predicate Apart2(a: Node, b: Node)
    reads a, b
  {
    && a.Valid() && b.Valid() && a != b && a.Arrays() !! b.Arrays()
  }

  /** Three nodes that share nothing. */
  ghost predicate Apart3(a: Node, b: Node, c: Node)
    reads a, b, c
  {
    Apart2(a, b) && Apart2(a, c) && Apart2(b, c)
  }

  /** `btree_split_child`, on the parent `x`, its full child `full` and the node `right` just created at `at`. */
  method Split(x: Node, full: Node, right: Node, i: nat, at: Ptr)
    requires Apart3(x, full, right) && x.nKeys < MAX_KEYS && x.nChildren == x.nKeys + 1 && i <= x.nKeys
    requires full.nKeys == MAX_KEYS && (if full.isLeaf then full.nChildren == 0 else full.nChildren == MAX_CHILDREN)
    requires right.Value() == Cell([], [], true)
    modifies x, x.keys, x.data, x.children, full, full.keys, full.data, full.children
    modifies right, right.keys, right.data, right.children
    ensures Apart3(x, full, right)
    ensures (x.Value(), full.Value(), right.Value()) == SplitCells(old(x.Value()), old(full.Value()), i, at)
  {
    hide Node.Entries, Node.Value, Zip;
    right.CopyKind(full);
    x.InsertChild(at, i + 1);
    var e := full.PopKey(BRANCHING_FACTOR - 1);
    x.InsertKey(e, i);
    MovedTwice(old(full.Value()).es[1]);
    GiveHalf(full, right);
    HalvesOf(old(full.Value()));
  }

  /** The two loops of `btree_split_child`, one and two rounds for `BRANCHING_FACTOR` 2. */
  method GiveHalf(full: Node, right: Node)
    requires Apart2(full, right) && full.nKeys == MAX_KEYS - 1 && right.nKeys == 0 && right.nChildren == 0
    requires if full.isLeaf then full.nChildren == 0 else full.nChildren == MAX_CHILDREN
    requires right.isLeaf == full.isLeaf
    modifies full, full.keys, full.data, full.children, right, right.keys, right.data, right.children
    ensures Apart2(full, right)
    ensures var f := old(full.Value());
      && full.Value() == Cell(f.es[..1], if f.isLeaf then [] else f.children[..2], f.isLeaf)
      && right.Value() == Cell([Moved(f.es[1])], if f.isLeaf then [] else f.children[2..], f.isLeaf)
  {
    hide Node.Entries, Node.Value, Zip;
    ghost var f := full.Value();
    var i := BRANCHING_FACTOR - 1;
    while i < MAX_KEYS - 1
      invariant 1 <= i <= 2 && full.nKeys + i == 3 && Apart2(full, right)
      invariant full.Value() == f.(es := f.es[..full.nKeys])
      invariant right.Value() == Cell(if i == 1 then [] else [Moved(f.es[1])], [], f.isLeaf)
      modifies full, full.keys, full.data, full.children, right, right.keys, right.data, right.children
    {
      var e := full.PopKey(i);
      MovedTwice(f.es[i]);
      right.AppendKey(e);
      i := i + 1;
    }
    if !full.isLeaf {
      i := BRANCHING_FACTOR;
      while i < 2 * BRANCHING_FACTOR
        invariant 2 <= i <= 4 && Apart2(full, right)
        invariant full.Value() == Cell(f.es[..1], f.children[..2] + f.children[i..], false)
        invariant right.Value() == Cell([Moved(f.es[1])], f.children[2..i], right.isLeaf) && (right.isLeaf ==> i == 2)
        modifies full, full.keys, full.data, full.children, right, right.keys, right.data, right.children
      {
        var c := full.PopChild(BRANCHING_FACTOR);
        right.AppendChild(c);
        i := i + 1;
      }
    }
  }

  lemma MovedTwice(e: Entry)
    ensures Moved(Moved(e)) == Moved(e)
  {
    NarrowKeeps(e.key);
  }

  lemma HalvesOf(f: Cell)
    requires |f.es| == 3
    ensures var g := f.es[..1] + f.es[2..]; g[..1] == f.es[..1] && g[1] == f.es[2]
  {
  }

  /** `btree_take_prev`: `s` is the left sibling of `c`, and `i` the separator between them. */
  method TakePrev(x: Node, s: Node, c: Node, i: nat)
    requires Apart3(x, s, c) && i < x.nKeys && s.nKeys >= 1 && c.nKeys < MAX_KEYS
    requires if c.isLeaf then c.nChildren == 0 && s.isLeaf && s.nChildren == 0
             else !s.isLeaf && s.nChildren == s.nKeys + 1 && c.nChildren < MAX_CHILDREN
    modifies x, x.keys, x.data, s, s.keys, s.data, s.children, c, c.keys, c.data, c.children
    ensures Apart3(x, s, c)
    ensures (x.Value(), s.Value(), c.Value()) == PrevCells(old(x.Value()), old(s.Value()), old(c.Value()), i)
  {
    hide Node.Entries, Node.Value, Zip;
    ghost var vx := x.Value();
    var e := x.PopKey(i);
    MovedTwice(vx.es[i]);
    MovedTwice(s.Value().es[s.nKeys - 1]);
    e := ShiftRight(s, c, e);
    x.InsertKey(e, i);
    SwappedAt(vx.es, i, e);
  }

  /** The entry `e` goes in front of `c`, with the last child of `s`; the last entry of `s` comes out. */
  method ShiftRight(s: Node, c: Node, e: Entry) returns (out: Entry)
    requires Apart2(s, c) && s.nKeys >= 1 && c.nKeys < MAX_KEYS
    requires if c.isLeaf then c.nChildren == 0 && s.isLeaf && s.nChildren == 0
             else !s.isLeaf && s.nChildren == s.nKeys + 1 && c.nChildren < MAX_CHILDREN
    modifies s, s.keys, s.data, s.children, c, c.keys, c.data, c.children
    ensures Apart2(s, c)
    ensures var vs, vc := old(s.Value()), old(c.Value()); var n := |vs.es| - 1;
      && out == Moved(vs.es[n])
      && s.Value() == Cell(vs.es[..n], if vc.isLeaf then [] else vs.children[..n + 1], vc.isLeaf)
      && c.Value() == Cell([Moved(e)] + vc.es, if vc.isLeaf then [] else [vs.children[n + 1]] + vc.children, vc.isLeaf)
  {
    hide Node.Entries, Node.Value, Zip;
    ghost var vs, vc := s.Value(), c.Value();
    c.InsertKey(e, 0);
    if !c.isLeaf {
      var g := s.PopChild(s.nChildren - 1);
      c.InsertChild(g, 0);
    }
    out := s.PopKey(s.nKeys - 1);
    AtEnds(vs.es, vc.es, Moved(e));
    AtEnds(vs.children, vc.children, if vs.children == [] then NULL else vs.children[|vs.children| - 1]);
  }

  /** `btree_take_next`: `s` is the right sibling of `c`. */
  method TakeNext(x: Node, c: Node, s: Node, i: nat)
    requires Apart3(x, c, s) && i < x.nKeys && s.nKeys >= 1 && c.nKeys < MAX_KEYS
    requires if c.isLeaf then c.nChildren == 0 && s.isLeaf && s.nChildren == 0
             else !s.isLeaf && s.nChildren == s.nKeys + 1 && c.nChildren < MAX_CHILDREN
    modifies x, x.keys, x.data, s, s.keys, s.data, s.children, c, c.keys, c.data, c.children
    ensures Apart3(x, c, s)
    ensures (x.Value(), c.Value(), s.Value()) == NextCells(old(x.Value()), old(c.Value()), old(s.Value()), i)
  {
    hide Node.Entries, Node.Value, Zip;
    ghost var vx := x.Value();
    var e := x.PopKey(i);
    MovedTwice(vx.es[i]);
    MovedTwice(s.Value().es[0]);
    e := ShiftLeft(c, s, e);
    x.InsertKey(e, i);
    SwappedAt(vx.es, i, e);
  }

  /** The entry `e` goes behind `c`, with the first child of `s`; the first entry of `s` comes out. */
  method ShiftLeft(c: Node, s: Node, e: Entry) returns (out: Entry)
    requires Apart2(c, s) && s.nKeys >= 1 && c.nKeys < MAX_KEYS
    requires if c.isLeaf then c.nChildren == 0 && s.isLeaf && s.nChildren == 0
             else !s.isLeaf && s.nChildren == s.nKeys + 1 && c.nChildren < MAX_CHILDREN
    modifies s, s.keys, s.data, s.children, c, c.keys, c.data, c.children
    ensures Apart2(c, s)
    ensures var vs, vc := old(s.Value()), old(c.Value());
      && out == Moved(vs.es[0])
      && c.Value() == Cell(vc.es + [Moved(e)], if vc.isLeaf then [] else vc.children + [vs.children[0]], vc.isLeaf)
      && s.Value() == Cell(vs.es[1..], if vc.isLeaf then [] else vs.children[1..], vc.isLeaf)
  {
    hide Node.Entries, Node.Value, Zip;
    ghost var vs, vc := s.Value(), c.Value();
    AtEnds(vs.es, vc.es, Moved(e));
    c.AppendKey(e);
    if !c.isLeaf {
      AtEnds(vs.children, vc.children, NULL);
      var g := s.PopChild(0);
      c.AppendChild(g);
    }
    out := s.PopKey(0);
  }

  /** Popping at either end, and inserting in front. */
  lemma AtEnds<T>(s: seq<T>, c: seq<T>, x: T)
    ensures s != [] ==> s[..|s| - 1] + s[|s|..] == s[..|s| - 1] && s[..0] + s[1..] == s[1..]
    ensures c[..0] + [x] + c[0..] == [x] + c
  {
  }

  /** Taking out separator `i` and putting another in its place. */
  lemma SwappedAt(es: seq<Entry>, i: nat, e: Entry)
    requires i < |es|
    ensures SpliceEs(es[..i] + es[i + 1..], i, e) == es[i := e]
  {
  }

  /** `btree_merge`: entries and children of `s` go behind the separator in `c`; `s` itself is then freed. */
  method MergeInto(x: Node, c: Node, s: Node, i: nat)
    requires Apart3(x, c, s) && i < x.nKeys && x.nChildren == x.nKeys + 1 && !x.isLeaf
    requires c.nKeys + 1 + s.nKeys <= MAX_KEYS
    requires if c.isLeaf then c.nChildren == 0 && s.nChildren == 0
             else c.nChildren == c.nKeys + 1 && s.nChildren == s.nKeys + 1
    modifies x, x.keys, x.data, x.children, c, c.keys, c.data, c.children
    ensures Apart3(x, c, s) && s.Value() == old(s.Value())
    ensures (x.Value(), c.Value()) == MergedCells(old(x.Value()), old(c.Value()), old(s.Value()), i)
  {
    hide Node.Entries, Node.Value, Zip;
    ghost var vx, vc, vs := x.Value(), c.Value(), s.Value();
    var e := x.PopKey(i);
    MovedTwice(vx.es[i]);
    c.AppendKey(e);
    AppendAll(c, s);
    var _ := x.PopChild(i + 1);
  }

  /** The two loops of `btree_merge`. */
  method AppendAll(c: Node, s: Node)
    requires Apart2(c, s) && c.nKeys + s.nKeys <= MAX_KEYS
    requires if c.isLeaf then c.nChildren == 0 && s.nChildren == 0
             else c.nChildren == c.nKeys && s.nChildren == s.nKeys + 1
    modifies c, c.keys, c.data, c.children
    ensures Apart2(c, s)
    ensures var v, w := old(c.Value()), s.Value();
      c.Value() == Cell(v.es + MovedAll(w.es), v.children + w.children, v.isLeaf)
  {
    hide Node.Entries, Node.Value, Zip;
    AppendKeys(c, s);
    if !c.isLeaf {
      AppendChildren(c, s);
    }
  }

  method AppendKeys(c: Node, s: Node)
    requires Apart2(c, s) && c.nKeys + s.nKeys <= MAX_KEYS
    modifies c, c.keys, c.data, c.children
    ensures Apart2(c, s) && s.Value() == old(s.Value()) && s.nKeys == old(s.nKeys) && s.nChildren == old(s.nChildren)
    ensures c.Value() == old(c.Value()).(es := old(c.Value()).es + MovedAll(s.Value().es))
  {
    hide Node.Entries, Node.Value, Zip;
    ghost var v, w := c.Value(), s.Value();
    var j := 0;
    while j < s.nKeys
      invariant 0 <= j <= s.nKeys && Apart2(c, s) && s.Value() == w
      invariant c.Value() == v.(es := v.es + MovedAll(w.es)[..j])
      modifies c, c.keys, c.data, c.children
    {
      var e := s.EntryAt(j);
      c.AppendKey(e);
      j := j + 1;
    }
  }

  method AppendChildren(c: Node, s: Node)
    requires Apart2(c, s) && !c.isLeaf && s.nChildren == s.nKeys + 1 && c.nChildren + s.nChildren <= MAX_KEYS + 1
    modifies c, c.keys, c.data, c.children
    ensures Apart2(c, s) && s.Value() == old(s.Value())
    ensures c.Value() == old(c.Value()).(children := old(c.Value()).children + s.Value().children)
  {
    hide Node.Entries, Node.Value, Zip;
    ghost var v, w := c.Value(), s.Value();
    var j := 0;
    while j <= s.nKeys
      invariant 0 <= j <= s.nKeys + 1 && Apart2(c, s) && s.Value() == w
      invariant c.Value() == v.(children := v.children + w.children[..j])
      modifies c, c.keys, c.data, c.children
    {
      var g := s.ChildAt(j);
      c.AppendChild(g);
      j := j + 1;
    }
  }
}
