/**
  The B-tree in memory: nodes are cells reached through pointers, allocated and
  freed by hand.  Every operation is shown to turn a well-formed pointer
  structure into the one that module `BTree` describes, to touch no cell
  outside it, and to leave no cell behind.
*/
module BTreeMemory {
  import opened BTree

  type Ptr = nat

  const NULL: Ptr := 0

  /** `btree_node_t`; the counts are the lengths of the two sequences. */
  datatype Cell = Cell(es: seq<Entry>, children: seq<Ptr>, isLeaf: bool)

  type Memory = map<Ptr, Cell>

  /** A tree together with the address of each of its nodes. */
  datatype Layout = Layout(addr: Ptr, es: seq<Entry>, kids: seq<Layout>)

  function Erase(p: Layout): Tree {
    Tree(p.es, seq(|p.kids|, i requires 0 <= i < |p.kids| => Erase(p.kids[i])))
  }

  function Addrs(kids: seq<Layout>): seq<Ptr> {
    seq(|kids|, i requires 0 <= i < |kids| => kids[i].addr)
  }

  /** The memory holds the tree, or the row of trees, at the given addresses. */
  ghost predicate Rep(m: Memory, p: Layout)
    decreases p, 1
  {
    && p.addr != NULL && p.addr in m
    && m[p.addr] == Cell(p.es, Addrs(p.kids), p.kids == [])
    && RepAll(m, p.kids)
  }

  ghost predicate RepAll(m: Memory, ps: seq<Layout>)
    decreases ps, 0
  {
    ps == [] || (Rep(m, ps[0]) && RepAll(m, ps[1..]))
  }

  /** How often each address is used by a tree, and by a row of trees. */
  ghost function Uses(p: Layout): multiset<Ptr>
    decreases p, 1
  {
    multiset{p.addr} + UsesAll(p.kids)
  }

  ghost function UsesAll(ps: seq<Layout>): multiset<Ptr>
    decreases ps, 0
  {
    if ps == [] then multiset{} else Uses(ps[0]) + UsesAll(ps[1..])
  }

  ghost predicate Once(u: multiset<Ptr>) {
    forall q :: u[q] <= 1
  }

  /** No node is shared. */
  ghost predicate Apart(p: Layout) {
    Once(Uses(p))
  }

  /** The structure that used `u` now uses `u'`; new cells are fresh, dropped ones are freed, others untouched. */
  ghost predicate Update(m: Memory, m': Memory, u: multiset<Ptr>, u': multiset<Ptr>) {
    && (forall q :: q in u ==> q in m)
    && (forall q :: q in u' && q !in u ==> q !in m)
    && (forall q :: q in m' <==> (q in m && q !in u) || q in u')
    && (forall q :: q in m && q !in u && q in m' ==> m'[q] == m[q])
  }

  lemma {:induction false} RowConcat(m: Memory, ps: seq<Layout>, qs: seq<Layout>)
    ensures UsesAll(ps + qs) == UsesAll(ps) + UsesAll(qs)
    ensures RepAll(m, ps + qs) <==> RepAll(m, ps) && RepAll(m, qs)
  {
    if ps == [] {
      assert ps + qs == qs;
    } else {
      assert (ps + qs)[1..] == ps[1..] + qs;
      RowConcat(m, ps[1..], qs);
    }
  }

  lemma RowAt(m: Memory, ps: seq<Layout>, j: nat)
    requires j < |ps|
    ensures UsesAll(ps) == UsesAll(ps[..j]) + (Uses(ps[j]) + UsesAll(ps[j + 1..]))
    ensures RepAll(m, ps) <==> RepAll(m, ps[..j]) && Rep(m, ps[j]) && RepAll(m, ps[j + 1..])
  {
    hide Uses, Rep;
    var row := [ps[j]] + ps[j + 1..];
    assert row[1..] == ps[j + 1..];
    assert UsesAll(row) == Uses(ps[j]) + UsesAll(ps[j + 1..]);
    assert RepAll(m, row) <==> Rep(m, ps[j]) && RepAll(m, ps[j + 1..]);
    assert ps == ps[..j] + row;
    RowConcat(m, ps[..j], row);
  }

  lemma {:induction false} RepUses(m: Memory, p: Layout)
    requires Rep(m, p)
    ensures forall q :: q in Uses(p) ==> q in m
    decreases p, 1
  {
    RepUsesAll(m, p.kids);
  }

  lemma {:induction false} RepUsesAll(m: Memory, ps: seq<Layout>)
    requires RepAll(m, ps)
    ensures forall q :: q in UsesAll(ps) ==> q in m
    decreases ps, 0
  {
    if ps != [] {
      RepUses(m, ps[0]);
      RepUsesAll(m, ps[1..]);
    }
  }

  ghost predicate Agree(m: Memory, m': Memory, u: multiset<Ptr>) {
    forall q :: q in u ==> q in m && q in m' && m'[q] == m[q]
  }

  lemma {:induction false} Frame(m: Memory, m': Memory, p: Layout)
    requires Rep(m, p) && Agree(m, m', Uses(p))
    ensures Rep(m', p)
    decreases p, 1
  {
    assert p.addr in Uses(p);
    FrameAll(m, m', p.kids);
  }

  lemma {:induction false} FrameAll(m: Memory, m': Memory, ps: seq<Layout>)
    requires RepAll(m, ps) && Agree(m, m', UsesAll(ps))
    ensures RepAll(m', ps)
    decreases ps, 0
  {
    if ps != [] {
      Frame(m, m', ps[0]);
      FrameAll(m, m', ps[1..]);
    }
  }

  lemma {:induction false} EraseReplaced(p: Layout, j: nat, kid: Layout)
    requires j < |p.kids|
    ensures |Erase(p).kids| == |p.kids|
    ensures Erase(p.(kids := p.kids[j := kid])) == Tree(p.es, Erase(p).kids[j := Erase(kid)])
  {
  }

  /** A change to a part of a structure is a change to the whole, and leaves the rest alone. */
  lemma UpdatePart(m: Memory, m': Memory, rest: multiset<Ptr>, u: multiset<Ptr>, u': multiset<Ptr>)
    requires Once(rest + u) && Once(u') && Update(m, m', u, u') && forall q :: q in rest ==> q in m
    ensures Once(rest + u') && Update(m, m', rest + u, rest + u') && Agree(m, m', rest)
  {
    forall q ensures (rest + u')[q] <= 1 && (q in rest ==> q !in u && q !in u') {
      assert (rest + u)[q] <= 1 && u'[q] <= 1;
    }
  }

  lemma UsesAround(p: Layout, j: nat, rest: multiset<Ptr>)
    requires j < |p.kids| && rest == multiset{p.addr} + UsesAll(p.kids[..j]) + UsesAll(p.kids[j + 1..])
    ensures Uses(p) == rest + Uses(p.kids[j])
  {
    hide UsesAll;
    RowAt(map[], p.kids, j);
  }

  /** Replacing one subtree in place: everything around it stays as it was. */
  lemma KidReplaced(m: Memory, m': Memory, p: Layout, j: nat, kid: Layout)
    requires Rep(m, p) && Apart(p) && j < |p.kids|
    requires Rep(m', kid) && Apart(kid) && kid.addr == p.kids[j].addr
    requires Update(m, m', Uses(p.kids[j]), Uses(kid))
    ensures var p' := p.(kids := p.kids[j := kid]);
      && Rep(m', p') && Apart(p') && Update(m, m', Uses(p), Uses(p'))
      && Erase(p') == Tree(p.es, Erase(p).kids[j := Erase(kid)])
  {
    hide Erase, Once, Update, RepAll, UsesAll, Rep, Uses;
    var p' := p.(kids := p.kids[j := kid]);
    assert p'.kids[..j] == p.kids[..j] && p'.kids[j + 1..] == p.kids[j + 1..];
    var rest := multiset{p.addr} + UsesAll(p.kids[..j]) + UsesAll(p.kids[j + 1..]);
    KidReplacedUses(m, m', p, p', j, rest);
    KidReplacedRep(m, m', p, p', j);
    EraseReplaced(p, j, kid);
  }

  lemma KidReplacedUses(m: Memory, m': Memory, p: Layout, p': Layout, j: nat, rest: multiset<Ptr>)
    requires Rep(m, p) && Apart(p) && j < |p.kids| && |p'.kids| == |p.kids| && p'.addr == p.addr
    requires p'.kids[..j] == p.kids[..j] && p'.kids[j + 1..] == p.kids[j + 1..]
    requires rest == multiset{p.addr} + UsesAll(p.kids[..j]) + UsesAll(p.kids[j + 1..])
    requires Apart(p'.kids[j]) && Update(m, m', Uses(p.kids[j]), Uses(p'.kids[j]))
    ensures Apart(p') && Update(m, m', Uses(p), Uses(p')) && Agree(m, m', rest)
  {
    hide Once, Update, UsesAll, Uses, Rep;
    RepUses(m, p);
    UsesAround(p, j, rest);
    UsesAround(p', j, rest);
    UpdatePart(m, m', rest, Uses(p.kids[j]), Uses(p'.kids[j]));
  }

  lemma KidReplacedRep(m: Memory, m': Memory, p: Layout, p': Layout, j: nat)
    requires Rep(m, p) && j < |p.kids| && |p'.kids| == |p.kids| && p'.addr == p.addr && p'.es == p.es
    requires p'.kids[..j] == p.kids[..j] && p'.kids[j + 1..] == p.kids[j + 1..] && p'.kids[j].addr == p.kids[j].addr
    requires Rep(m', p'.kids[j]) && Agree(m, m', multiset{p.addr} + UsesAll(p.kids[..j]) + UsesAll(p.kids[j + 1..]))
    ensures Rep(m', p')
  {
    hide RepAll, UsesAll, Uses;
    RowAt(m, p.kids, j);
    RowAt(m', p'.kids, j);
    FrameAll(m, m', p.kids[..j]);
    FrameAll(m, m', p.kids[j + 1..]);
    assert Addrs(p'.kids) == Addrs(p.kids) by {
      assert p.kids == p.kids[..j] + [p.kids[j]] + p.kids[j + 1..];
      assert p'.kids == p'.kids[..j] + [p'.kids[j]] + p'.kids[j + 1..];
    }
    assert p.addr in multiset{p.addr} + UsesAll(p.kids[..j]) + UsesAll(p.kids[j + 1..]);
  }

  // ------------------------------------------------- two neighbouring subtrees

  /** The addresses around kids `i` and `i + 1` of a node, those two included or not. */
  ghost function Outside(p: Layout, i: nat, n: nat): multiset<Ptr>
    requires i + n <= |p.kids|
  {
    UsesAll(p.kids[..i]) + UsesAll(p.kids[i + n..])
  }

  lemma UsesOne(p: Layout, i: nat)
    requires i < |p.kids|
    ensures Uses(p) == multiset{p.addr, p.kids[i].addr} + (UsesAll(p.kids[i].kids) + Outside(p, i, 1))
  {
    hide UsesAll;
    RowAt(map[], p.kids, i);
  }

  lemma UsesTwo(p: Layout, i: nat)
    requires i + 1 < |p.kids|
    ensures var l, r := p.kids[i], p.kids[i + 1];
      Uses(p) == multiset{p.addr, l.addr, r.addr} + (UsesAll(l.kids + r.kids) + Outside(p, i, 2))
  {
    hide UsesAll, RepAll, Rep;
    var l, r, rest := p.kids[i], p.kids[i + 1], p.kids[i + 1..];
    RowAt(map[], p.kids, i);
    RowAt(map[], rest, 0);
    assert rest[..0] == [] && rest[1..] == p.kids[i + 2..] && rest[0] == r;
    EmptyRow();
    RowConcat(map[], l.kids, r.kids);
    Regrouped(p.addr, UsesAll(p.kids[..i]), l.addr, UsesAll(l.kids), r.addr, UsesAll(r.kids), UsesAll(p.kids[i + 2..]));
  }

  lemma Regrouped(x: Ptr, before: multiset<Ptr>, l: Ptr, ul: multiset<Ptr>, r: Ptr, ur: multiset<Ptr>,
                  after: multiset<Ptr>)
    ensures multiset{x} + (before + (multiset{l} + ul + (multiset{} + (multiset{r} + ur + after))))
         == multiset{x, l, r} + (ul + ur + (before + after))
  {
  }

  lemma EmptyRow()
    ensures UsesAll([]) == multiset{} && forall m :: RepAll(m, [])
  {
  }

  /** Cells written in `w` are not those in `u`. */
  lemma Untouched(m: Memory, m': Memory, w: multiset<Ptr>, u: multiset<Ptr>)
    requires Once(w + u) && (forall q :: q in u ==> q in m)
    requires forall q :: q in m && q !in w ==> q in m' && m'[q] == m[q]
    ensures Agree(m, m', u)
  {
    forall q | q in u ensures q !in w {
      assert (w + u)[q] <= 1;
    }
  }

  /** What a node with two given neighbouring kids looks like in memory. */
  lemma RepTwo(m: Memory, p: Layout, i: nat)
    requires i + 1 < |p.kids| && p.addr != NULL && p.addr in m && m[p.addr] == Cell(p.es, Addrs(p.kids), false)
    requires RepAll(m, p.kids[..i]) && Rep(m, p.kids[i]) && Rep(m, p.kids[i + 1]) && RepAll(m, p.kids[i + 2..])
    ensures Rep(m, p)
  {
    hide UsesAll, Uses;
    RowAt(m, p.kids, i);
    RowAt(m, p.kids[i + 1..], 0);
    assert p.kids[i + 1..][..0] == [] && p.kids[i + 1..][1..] == p.kids[i + 2..];
  }

  lemma RowsOfTwo(m: Memory, p: Layout, i: nat)
    requires i + 1 < |p.kids| && Rep(m, p)
    ensures RepAll(m, p.kids[..i]) && Rep(m, p.kids[i]) && Rep(m, p.kids[i + 1]) && RepAll(m, p.kids[i + 2..])
    ensures RepAll(m, p.kids[i].kids + p.kids[i + 1].kids)
  {
    hide UsesAll, Uses;
    RowAt(m, p.kids, i);
    RowAt(m, p.kids[i + 1..], 0);
    assert p.kids[i + 1..][..0] == [] && p.kids[i + 1..][1..] == p.kids[i + 2..];
    RowConcat(m, p.kids[i].kids, p.kids[i + 1].kids);
  }

  lemma RotatedUses(m: Memory, m': Memory, p: Layout, p': Layout, i: nat)
    requires Rep(m, p) && Apart(p) && i + 1 < |p.kids| && |p'.kids| == |p.kids| && m'.Keys == m.Keys
    requires p'.addr == p.addr
    requires p'.kids[..i] == p.kids[..i] && p'.kids[i + 2..] == p.kids[i + 2..]
    requires p'.kids[i].addr == p.kids[i].addr && p'.kids[i + 1].addr == p.kids[i + 1].addr
    requires p'.kids[i].kids + p'.kids[i + 1].kids == p.kids[i].kids + p.kids[i + 1].kids
    requires forall q :: q in m && q !in multiset{p.addr, p.kids[i].addr, p.kids[i + 1].addr} ==> m'[q] == m[q]
    ensures Apart(p') && Update(m, m', Uses(p), Uses(p'))
    ensures Agree(m, m', UsesAll(p.kids[i].kids + p.kids[i + 1].kids) + Outside(p, i, 2))
  {
    hide UsesAll, Uses, Rep, Once, Update;
    UsesTwo(p, i);
    UsesTwo(p', i);
    assert Uses(p') == Uses(p);
    RepUses(m, p);
    InPlace(m, m', multiset{p.addr, p.kids[i].addr, p.kids[i + 1].addr},
            UsesAll(p.kids[i].kids + p.kids[i + 1].kids) + Outside(p, i, 2));
  }

  lemma RotatedRows(m: Memory, m': Memory, p: Layout, i: nat, l: Layout, r: Layout)
    requires i + 1 < |p.kids| && l.kids + r.kids == p.kids[i].kids + p.kids[i + 1].kids
    requires RepAll(m, p.kids[..i]) && RepAll(m, p.kids[i + 2..]) && RepAll(m, p.kids[i].kids + p.kids[i + 1].kids)
    requires Agree(m, m', UsesAll(p.kids[i].kids + p.kids[i + 1].kids) + Outside(p, i, 2))
    ensures RepAll(m', p.kids[..i]) && RepAll(m', p.kids[i + 2..]) && RepAll(m', l.kids) && RepAll(m', r.kids)
  {
    hide UsesAll, RepAll;
    FrameAll(m, m', p.kids[..i]);
    FrameAll(m, m', p.kids[i + 2..]);
    FrameAll(m, m', l.kids + r.kids);
    RowConcat(m', l.kids, r.kids);
  }

  /** Entries and grandkids move between two neighbours and the separator; no cell is added or dropped. */
  lemma Rotated(m: Memory, m': Memory, p: Layout, i: nat, l: Layout, e: Entry, r: Layout)
    requires Rep(m, p) && Apart(p) && i + 1 < |p.kids| && i < |p.es|
    requires l.addr == p.kids[i].addr && r.addr == p.kids[i + 1].addr
    requires l.kids + r.kids == p.kids[i].kids + p.kids[i + 1].kids
    requires m'.Keys == m.Keys
    requires forall q :: q in m && q !in multiset{p.addr, l.addr, r.addr} ==> m'[q] == m[q]
    requires p.addr in m && m'[p.addr] == m[p.addr].(es := p.es[i := e])
    requires l.addr in m && m'[l.addr] == Cell(l.es, Addrs(l.kids), l.kids == [])
    requires r.addr in m && m'[r.addr] == Cell(r.es, Addrs(r.kids), r.kids == [])
    ensures var p' := Layout(p.addr, p.es[i := e], p.kids[i := l][i + 1 := r]);
      Rep(m', p') && Apart(p') && Update(m, m', Uses(p), Uses(p'))
  {
    hide UsesAll, Uses, RepAll, Rep, Once, Update;
    var p' := Layout(p.addr, p.es[i := e], p.kids[i := l][i + 1 := r]);
    assert p'.kids[..i] == p.kids[..i] && p'.kids[i + 2..] == p.kids[i + 2..];
    RotatedUses(m, m', p, p', i);
    RowsOfTwo(m, p, i);
    RotatedRows(m, m', p, i, l, r);
    Holds(m, p);
    Holds(m, p.kids[i]);
    Holds(m, p.kids[i + 1]);
    Fits(m', l);
    Fits(m', r);
    assert Addrs(p'.kids) == Addrs(p.kids);
    RepTwo(m', p', i);
  }

  /** Writing some cells of a structure in place. */
  lemma InPlace(m: Memory, m': Memory, w: multiset<Ptr>, u: multiset<Ptr>)
    requires Once(w + u) && (forall q :: q in w + u ==> q in m) && m'.Keys == m.Keys
    requires forall q :: q in m && q !in w ==> m'[q] == m[q]
    ensures Agree(m, m', u) && Update(m, m', w + u, w + u)
  {
    Untouched(m, m', w, u);
  }

  /** The cell of a node, and back. */
  lemma Holds(m: Memory, p: Layout)
    requires Rep(m, p)
    ensures p.addr != NULL && p.addr in m && m[p.addr] == Cell(p.es, Addrs(p.kids), p.kids == [])
  {
  }

  lemma Fits(m: Memory, p: Layout)
    requires p.addr != NULL && p.addr in m && m[p.addr] == Cell(p.es, Addrs(p.kids), p.kids == []) && RepAll(m, p.kids)
    ensures Rep(m, p)
  {
  }

  /** Freeing one cell of a structure while writing others in place. */
  lemma Dropped(m: Memory, m': Memory, w: multiset<Ptr>, b: Ptr, u: multiset<Ptr>)
    requires Once(w + multiset{b} + u) && (forall q :: q in w + multiset{b} + u ==> q in m) && m'.Keys == m.Keys - {b}
    requires forall q :: q in m && q !in w && q != b ==> m'[q] == m[q]
    ensures Agree(m, m', u) && Update(m, m', w + multiset{b} + u, w + u) && Once(w + u)
  {
    forall q ensures (w + u)[q] <= 1 && (q in u ==> q !in w && q != b) && (q in w ==> q != b) {
      assert (w + multiset{b} + u)[q] <= 1;
    }
  }

  /** Adding one fresh cell to a structure while writing others in place. */
  lemma Added(m: Memory, m': Memory, w: multiset<Ptr>, b: Ptr, u: multiset<Ptr>)
    requires Once(w + u) && (forall q :: q in w + u ==> q in m) && b !in m && m'.Keys == m.Keys + {b}
    requires forall q :: q in m && q !in w ==> m'[q] == m[q]
    ensures Agree(m, m', u) && Update(m, m', w + u, w + multiset{b} + u) && Once(w + multiset{b} + u)
  {
    forall q ensures (w + multiset{b} + u)[q] <= 1 && (q in u ==> q !in w) {
      assert (w + u)[q] <= 1;
    }
  }

  lemma RepOne(m: Memory, p: Layout, i: nat)
    requires i < |p.kids| && p.addr != NULL && p.addr in m && m[p.addr] == Cell(p.es, Addrs(p.kids), false)
    requires RepAll(m, p.kids[..i]) && Rep(m, p.kids[i]) && RepAll(m, p.kids[i + 1..])
    ensures Rep(m, p)
  {
    hide UsesAll, Uses;
    RowAt(m, p.kids, i);
  }

  lemma RowsOfOne(m: Memory, p: Layout, i: nat)
    requires i < |p.kids| && Rep(m, p)
    ensures RepAll(m, p.kids[..i]) && Rep(m, p.kids[i]) && RepAll(m, p.kids[i + 1..]) && RepAll(m, p.kids[i].kids)
  {
    hide UsesAll, Uses;
    RowAt(m, p.kids, i);
  }

  /** Two neighbours and their separator become one node; the cell of the right one is freed. */
  lemma Merged(m: Memory, m': Memory, p: Layout, i: nat, c: Layout, p': Layout)
    requires Rep(m, p) && Apart(p) && i + 1 < |p.kids|
    requires c.addr == p.kids[i].addr && c.kids == p.kids[i].kids + p.kids[i + 1].kids
    requires p'.addr == p.addr && p'.kids == p.kids[..i] + [c] + p.kids[i + 2..]
    requires m'.Keys == m.Keys - {p.kids[i + 1].addr}
    requires forall q :: q in m && q !in multiset{p.addr, c.addr} && q != p.kids[i + 1].addr ==> m'[q] == m[q]
    requires p.addr in m' && m'[p.addr] == Cell(p'.es, Addrs(p'.kids), false)
    requires c.addr in m' && m'[c.addr] == Cell(c.es, Addrs(c.kids), c.kids == [])
    ensures Rep(m', p') && Apart(p') && Update(m, m', Uses(p), Uses(p'))
  {
    hide UsesAll, Uses, RepAll, Rep, Once, Update;
    assert p'.kids[..i] == p.kids[..i] && p'.kids[i] == c && p'.kids[i + 1..] == p.kids[i + 2..];
    var b, u := p.kids[i + 1].addr, UsesAll(c.kids) + Outside(p, i, 2);
    UsesTwo(p, i);
    UsesOne(p', i);
    assert Uses(p) == multiset{p.addr, c.addr} + multiset{b} + u;
    assert Uses(p') == multiset{p.addr, c.addr} + u;
    RepUses(m, p);
    Dropped(m, m', multiset{p.addr, c.addr}, b, u);
    RowsOfTwo(m, p, i);
    FrameAll(m, m', p.kids[..i]);
    FrameAll(m, m', p.kids[i + 2..]);
    FrameAll(m, m', c.kids);
    Holds(m, p);
    Holds(m, p.kids[i]);
    Fits(m', c);
    RepOne(m', p', i);
  }

  lemma RowOfTwo(a: seq<Layout>, l: Layout, r: Layout, c: seq<Layout>)
    ensures var row := a + [l, r] + c; var i := |a|;
      |row| == i + 2 + |c| && row[..i] == a && row[i] == l && row[i + 1] == r && row[i + 2..] == c
  {
  }

  /** One node becomes two neighbours around a separator; the right one gets a fresh cell. */
  lemma Divided(m: Memory, m': Memory, p: Layout, i: nat, l: Layout, r: Layout, p': Layout)
    requires Rep(m, p) && Apart(p) && i < |p.kids|
    requires l.addr == p.kids[i].addr && r.addr != NULL && r.addr !in m && l.kids + r.kids == p.kids[i].kids
    requires p'.addr == p.addr && p'.kids == p.kids[..i] + [l, r] + p.kids[i + 1..]
    requires m'.Keys == m.Keys + {r.addr}
    requires forall q :: q in m && q !in multiset{p.addr, l.addr} ==> m'[q] == m[q]
    requires p.addr in m' && m'[p.addr] == Cell(p'.es, Addrs(p'.kids), false)
    requires l.addr in m' && m'[l.addr] == Cell(l.es, Addrs(l.kids), l.kids == [])
    requires m'[r.addr] == Cell(r.es, Addrs(r.kids), r.kids == [])
    ensures Rep(m', p') && Apart(p') && Update(m, m', Uses(p), Uses(p'))
  {
    hide UsesAll, Uses, RepAll, Rep, Once, Update;
    RowOfTwo(p.kids[..i], l, r, p.kids[i + 1..]);
    var u := UsesAll(l.kids + r.kids) + Outside(p, i, 1);
    UsesOne(p, i);
    UsesTwo(p', i);
    assert Uses(p) == multiset{p.addr, l.addr} + u;
    assert Uses(p') == multiset{p.addr, l.addr} + multiset{r.addr} + u;
    RepUses(m, p);
    Added(m, m', multiset{p.addr, l.addr}, r.addr, u);
    RowsOfOne(m, p, i);
    FrameAll(m, m', p.kids[..i]);
    FrameAll(m, m', p.kids[i + 1..]);
    FrameAll(m, m', l.kids + r.kids);
    RowConcat(m', l.kids, r.kids);
    Holds(m, p);
    Holds(m, p.kids[i]);
    Fits(m', l);
    Fits(m', r);
    RepTwo(m', p', i);
  }

  // ------------------------------------------------------------------ operations

  /** Memory holds an unshared tree of height `h` rooted at `x`. */
  ghost predicate NodeAt(m: Memory, p: Layout, x: Ptr, h: nat) {
    Rep(m, p) && Apart(p) && p.addr == x && Balanced(Erase(p), h)
  }

  /** An operation at `x` took layout `p` to `p'` and touched nothing else. */
  ghost predicate Became(m: Memory, m': Memory, p: Layout, p': Layout) {
    Rep(m', p') && Apart(p') && p'.addr == p.addr && Update(m, m', Uses(p), Uses(p'))
  }

  lemma KidAt(m: Memory, p: Layout, x: Ptr, h: nat, j: nat)
    requires NodeAt(m, p, x, h) && h > 0 && j < |p.kids|
    ensures |p.kids| == |p.es| + 1 && x in m && m[x].es == p.es && |m[x].children| == |p.kids| && !m[x].isLeaf
    ensures NodeAt(m, p.kids[j], m[x].children[j], h - 1) && |p.kids[j].es| >= 1
    ensures m[x].children[j] in m && m[m[x].children[j]].es == p.kids[j].es
    ensures |Erase(p).kids| == |p.kids| && Erase(p).kids[j] == Erase(p.kids[j]) && Erase(p.kids[j]).es == p.kids[j].es
  {
    hide Uses, UsesAll, Once, RepAll;
    assert Erase(p).kids[j] == Erase(p.kids[j]);
    assert Balanced(Erase(p).kids[j], h - 1);
    RowAt(m, p.kids, j);
    ApartKid(p, j);
  }

  lemma ApartKid(p: Layout, j: nat)
    requires Apart(p) && j < |p.kids|
    ensures Apart(p.kids[j])
  {
    hide UsesAll;
    RowAt(map[], p.kids, j);
    forall q ensures Uses(p.kids[j])[q] <= 1 {
      assert Uses(p)[q] <= 1;
    }
  }

  lemma CellAt(m: Memory, p: Layout, x: Ptr, h: nat)
    requires NodeAt(m, p, x, h)
    ensures x != NULL && x in m && m[x] == Cell(p.es, Addrs(p.kids), p.kids == []) && |Addrs(p.kids)| == |p.kids|
    ensures m[x].isLeaf <==> h == 0
    ensures Erase(p).es == p.es && |Erase(p).kids| == |p.kids| && |p.kids| == (if h == 0 then 0 else |p.es| + 1)
  {
  }

  lemma UpdateNothing(m: Memory, p: Layout)
    requires Rep(m, p)
    ensures Update(m, m, Uses(p), Uses(p))
  {
    RepUses(m, p);
  }

  /** Only the entries of the node itself are written. */
  lemma EntriesWritten(m: Memory, p: Layout, x: Ptr, h: nat, es: seq<Entry>)
    requires NodeAt(m, p, x, h)
    ensures x in m && Became(m, m[x := m[x].(es := es)], p, p.(es := es))
    ensures Erase(p.(es := es)) == Erase(p).(es := es)
  {
    hide UsesAll, RepAll;
    var m' := m[x := m[x].(es := es)];
    RepUses(m, p);
    Untouched(m, m', multiset{x}, UsesAll(p.kids));
    FrameAll(m, m', p.kids);
  }

  /** Two changes one after the other. */
  lemma UpdateTwice(m0: Memory, m1: Memory, m2: Memory, u0: multiset<Ptr>, u1: multiset<Ptr>, u2: multiset<Ptr>)
    requires Update(m0, m1, u0, u1) && Update(m1, m2, u1, u2)
    ensures Update(m0, m2, u0, u2)
  {
  }

  method LowerBound(es: seq<Entry>, k: Key) returns (i: nat)
    ensures i == LowerPos(es, k)
  {
    hide LowerPos;
    i := 0;
    while i < |es| && k > es[i].key
      invariant i <= |es| && Below(es[..i], k)
    {
      i := i + 1;
    }
    LowerPosUnique(es, k, i);
  }

  method UpperBound(es: seq<Entry>, k: Key) returns (p: nat)
    ensures p == UpperPos(es, k)
  {
    hide UpperPos;
    var i := |es| - 1;
    while i >= 0 && k < es[i].key
      invariant -1 <= i < |es| && Above(es[i + 1..], k)
    {
      assert es[i..] == [es[i]] + es[i + 1..];
      i := i - 1;
    }
    p := i + 1;
    UpperPosUnique(es, k, p);
  }

  lemma {:induction false} LowerPosUnique(es: seq<Entry>, k: Key, i: nat)
    requires i <= |es| && Below(es[..i], k) && (i < |es| ==> k <= es[i].key)
    ensures i == LowerPos(es, k)
  {
    assert i > 0 ==> es[..i][0].key < k;
    if i > 0 {
      assert es[1..][..i - 1] == es[..i][1..];
      LowerPosUnique(es[1..], k, i - 1);
    }
  }

  lemma {:induction false} UpperPosUnique(es: seq<Entry>, k: Key, p: nat)
    requires p <= |es| && Above(es[p..], k) && (p > 0 ==> es[p - 1].key <= k)
    ensures p == UpperPos(es, k)
  {
    var n := |es| - 1;
    assert p <= n ==> es[p..][n - p].key > k;
    if p <= n {
      assert es[..n][p..] == es[p..][..n - p];
      UpperPosUnique(es[..n], k, p);
    }
  }

  lemma FreshPtr(m: Memory)
    ensures exists p: Ptr :: p != NULL && p !in m
  {
    var p := MaxPlusOne(m.Keys);
    assert p + 1 != NULL && p + 1 !in m;
  }

  lemma {:induction false} MaxPlusOne(used: set<Ptr>) returns (p: Ptr)
    ensures forall q :: q in used ==> q <= p
  {
    if used == {} {
      p := 0;
    } else {
      var q :| q in used;
      var p' := MaxPlusOne(used - {q});
      p := if q < p' then p' else q;
      assert forall r :: r in used ==> r == q || r in used - {q};
    }
  }

  // What each helper leaves in the nodes it writes: the parent, then the left, then the right child.

  function SplitCells(node: Cell, full: Cell, i: nat, right: Ptr): (Cell, Cell, Cell)
    requires i <= |node.es| && i < |node.children| && |full.es| == MAX_KEYS && (!full.isLeaf ==> |full.children| == 4)
  {
    (Cell(SpliceEs(node.es, i, Moved(full.es[1])), node.children[..i + 1] + [right] + node.children[i + 1..], false),
     Cell(full.es[..1], if full.isLeaf then [] else full.children[..2], full.isLeaf),
     Cell([Moved(full.es[2])], if full.isLeaf then [] else full.children[2..], full.isLeaf))
  }

  function PrevCells(node: Cell, s: Cell, c: Cell, i: nat): (Cell, Cell, Cell)
    requires i < |node.es| && |s.es| >= 1 && (!c.isLeaf ==> |s.children| == |s.es| + 1)
  {
    var n := |s.es| - 1;
    (node.(es := node.es[i := Moved(s.es[n])]),
     Cell(s.es[..n], if c.isLeaf then [] else s.children[..n + 1], c.isLeaf),
     Cell([Moved(node.es[i])] + c.es, if c.isLeaf then [] else [s.children[n + 1]] + c.children, c.isLeaf))
  }

  function NextCells(node: Cell, c: Cell, s: Cell, i: nat): (Cell, Cell, Cell)
    requires i < |node.es| && |s.es| >= 1 && (!c.isLeaf ==> |s.children| >= 1)
  {
    (node.(es := node.es[i := Moved(s.es[0])]),
     Cell(c.es + [Moved(node.es[i])], if c.isLeaf then [] else c.children + [s.children[0]], c.isLeaf),
     Cell(s.es[1..], if c.isLeaf then [] else s.children[1..], c.isLeaf))
  }

  function MergedCells(node: Cell, c: Cell, s: Cell, i: nat): (Cell, Cell)
    requires i < |node.es| && i + 1 < |node.children|
  {
    (Cell(node.es[..i] + node.es[i + 1..], node.children[..i + 1] + node.children[i + 2..], false),
     Cell(c.es + [Moved(node.es[i])] + MovedAll(s.es), c.children + s.children, c.isLeaf))
  }

  class NodeMemory {
    var mem: Memory

    constructor ()
      ensures mem == map[]
    {
      mem := map[];
    }

    /** `btree_node_create`; a failing allocation is not modelled. */
    method Create() returns (p: Ptr)
      modifies this
      ensures p != NULL && p !in old(mem) && mem == old(mem)[p := Cell([], [], true)]
    {
      FreshPtr(mem);
      p :| p != NULL && p !in mem;
      mem := mem[p := Cell([], [], true)];
    }

    method Search(root: Ptr, key: Key, ghost p: Layout, ghost h: nat) returns (d: Data)
      requires NodeAt(mem, p, root, h)
      ensures d == BTree.Search(Erase(p), h, key)
      decreases h
    {
      CellAt(mem, p, root, h);
      var i := LowerBound(mem[root].es, key);
      if i < |mem[root].es| && mem[root].es[i].key == key {
        return mem[root].es[i].data;
      } else if mem[root].isLeaf {
        return 0;
      }
      KidAt(mem, p, root, h, i);
      d := Search(mem[root].children[i], key, p.kids[i], h - 1);
    }

    method SplitChild(x: Ptr, i: nat, ghost p: Layout, ghost h: nat) returns (ghost p': Layout)
      requires NodeAt(mem, p, x, h) && h > 0 && i < |p.kids| && |p.es| < MAX_KEYS && |p.kids[i].es| == MAX_KEYS
      modifies this
      ensures Became(old(mem), mem, p, p')
      ensures Full(Erase(p).kids[i]) && Erase(p') == SplitKid(Erase(p), i)
    {
      ghost var m := mem;
      KidAt(mem, p, x, h, i);
      CellAt(mem, p, x, h);
      var left := mem[x].children[i];
      CellAt(mem, p.kids[i], left, h - 1);
      var node, full := mem[x], mem[left];
      var right := Create();
      var cells := SplitCells(node, full, i, right);
      mem := mem[right := cells.2][left := cells.1][x := cells.0];
      p' := DividedLayout(m, mem, p, i, right, h);
    }

    method InsertNonfull(x: Ptr, e: Entry, ghost p: Layout, ghost h: nat) returns (ghost p': Layout)
      requires NodeAt(mem, p, x, h) && |p.es| < MAX_KEYS
      modifies this
      ensures Became(old(mem), mem, p, p') && Erase(p') == BTree.InsertNonfull(Erase(p), h, e)
      decreases h
    {
      hide Rep, Uses, Once, Update, UpperPos;
      CellAt(mem, p, x, h);
      var i := UpperBound(mem[x].es, e.key);
      if mem[x].isLeaf {
        EntriesWritten(mem, p, x, h, SpliceEs(p.es, i, e));
        mem := mem[x := mem[x].(es := SpliceEs(mem[x].es, i, e))];
        p' := p.(es := SpliceEs(p.es, i, e));
        return;
      }
      KidAt(mem, p, x, h, i);
      var j := i;
      ghost var m, q := mem, p;
      if |mem[mem[x].children[i]].es| == MAX_KEYS {
        q := SplitChild(x, i, p, h);
        SplitBalanced(Erase(p), h, i);
        CellAt(mem, q, x, h);
        if e.key > mem[x].es[i].key {
          j := i + 1;
        }
      } else {
        UpdateNothing(mem, p);
      }
      KidAt(mem, q, x, h, j);
      ghost var m1 := mem;
      ghost var kid := InsertNonfull(mem[x].children[j], e, q.kids[j], h - 1);
      KidReplaced(m1, mem, q, j, kid);
      p' := q.(kids := q.kids[j := kid]);
      UpdateTwice(m, m1, mem, Uses(p), Uses(q), Uses(p'));
    }

    /** `btree_insert`: returns the new root. */
    method Insert(root: Ptr, e: Entry, ghost p: Option<Layout>, ghost h: nat) returns (root': Ptr, ghost p': Layout)
      requires root == NULL <==> p.None?
      requires p.Some? ==> NodeAt(mem, p.value, root, h) && |p.value.es| >= 1
      modifies this
      ensures Rep(mem, p') && Apart(p') && p'.addr == root' && Update(old(mem), mem, UsesOf(p), Uses(p'))
      ensures EraseOf(p).Some? ==> Balanced(EraseOf(p).value, h) && |EraseOf(p).value.es| >= 1
      ensures Erase(p') == BTree.Insert(EraseOf(p), h, e).0
    {
      hide Rep, Uses, Once, Update;
      ghost var m := mem;
      root' := root;
      ghost var q: Layout, h' := Layout(root, [], []), 0;
      if root == NULL {
        root' := Create();
        q := NewLeaf(m, root');
      } else {
        CellAt(mem, p.value, root, h);
        q, h' := p.value, h;
        if |mem[root].es| == MAX_KEYS {
          root' := Create();
          mem := mem[root' := Cell([], [root], false)];
          assert mem == m[root' := Cell([], [root], false)];
          q := NewTop(m, p.value, h, root');
          RootDivides(Erase(p.value), h);
          ghost var m1, top := mem, q;
          q := SplitChild(root', 0, top, h + 1);
          h' := h + 1;
          UpdateTwice(m, m1, mem, UsesOf(p), Uses(top), Uses(q));
        } else {
          UpdateNothing(mem, q);
        }
      }
      ghost var m2 := mem;
      p' := InsertNonfull(root', e, q, h');
      UpdateTwice(m, m2, mem, UsesOf(p), Uses(q), Uses(p'));
    }

    /** `btree_take_prev`, with `i` the index of the sibling that gives an entry away. */
    method TakePrev(x: Ptr, i: nat, ghost p: Layout, ghost h: nat) returns (ghost p': Layout)
      requires NodeAt(mem, p, x, h) && h > 0 && i + 1 < |p.kids|
      modifies this
      ensures Became(old(mem), mem, p, p')
      ensures IsNode(Erase(p), i) && Siblings(Erase(p).kids[i], Erase(p).kids[i + 1]) && |Erase(p).kids[i].es| >= 1
      ensures Erase(p') == BTree.TakePrev(Erase(p), i)
    {
      PairAt(mem, p, x, h, i);
      ghost var m := mem;
      var left, right := mem[x].children[i], mem[x].children[i + 1];
      var node, s, c := mem[x], mem[left], mem[right];
      var cells := PrevCells(node, s, c, i);
      mem := mem[x := cells.0][left := cells.1][right := cells.2];
      p' := PrevLayout(m, mem, p, h, i);
    }

    /** `btree_take_next`. */
    method TakeNext(x: Ptr, i: nat, ghost p: Layout, ghost h: nat) returns (ghost p': Layout)
      requires NodeAt(mem, p, x, h) && h > 0 && i + 1 < |p.kids|
      modifies this
      ensures Became(old(mem), mem, p, p')
      ensures IsNode(Erase(p), i) && Siblings(Erase(p).kids[i], Erase(p).kids[i + 1]) && |Erase(p).kids[i + 1].es| >= 1
      ensures Erase(p') == BTree.TakeNext(Erase(p), i)
    {
      PairAt(mem, p, x, h, i);
      ghost var m := mem;
      var left, right := mem[x].children[i], mem[x].children[i + 1];
      var node, c, s := mem[x], mem[left], mem[right];
      var cells := NextCells(node, c, s, i);
      mem := mem[x := cells.0][left := cells.1][right := cells.2];
      p' := NextLayout(m, mem, p, h, i);
    }

    /** `btree_merge`: the right sibling is freed. */
    method MergeChildren(x: Ptr, i: nat, ghost p: Layout, ghost h: nat) returns (ghost p': Layout)
      requires NodeAt(mem, p, x, h) && h > 0 && i + 1 < |p.kids|
      modifies this
      ensures Became(old(mem), mem, p, p')
      ensures IsNode(Erase(p), i) && Erase(p') == Merge(Erase(p), i)
    {
      PairAt(mem, p, x, h, i);
      ghost var m := mem;
      var left, right := mem[x].children[i], mem[x].children[i + 1];
      var node, c, s := mem[x], mem[left], mem[right];
      var cells := MergedCells(node, c, s, i);
      mem := mem[x := cells.0][left := cells.1] - {right};
      p' := MergedLayout(m, mem, p, h, i);
    }

    /** `btree_fill_node`. */
    method FillNode(x: Ptr, i: nat, ghost p: Layout, ghost h: nat) returns (ghost p': Layout)
      requires NodeAt(mem, p, x, h) && h > 0 && i <= |p.es| && |p.es| >= 1
      modifies this
      ensures Became(old(mem), mem, p, p')
      ensures forall j :: 0 <= j < |Erase(p).es| ==> Siblings(Erase(p).kids[j], Erase(p).kids[j + 1])
      ensures |Erase(p).kids| == |Erase(p).es| + 1 && Erase(p') == Fill(Erase(p), i)
    {
      hide Rep, Uses, Once, Update, Balanced;
      NodeCounts(Erase(p), h);
      AllSiblings(Erase(p), h);
      CellAt(mem, p, x, h);
      KidAt(mem, p, x, h, i);
      if i != 0 {
        KidAt(mem, p, x, h, i - 1);
      }
      if i != |p.es| {
        KidAt(mem, p, x, h, i + 1);
      }
      if i != 0 && |mem[mem[x].children[i - 1]].es| >= BRANCHING_FACTOR {
        p' := TakePrev(x, i - 1, p, h);
      } else if i != |mem[x].es| && |mem[mem[x].children[i + 1]].es| >= BRANCHING_FACTOR {
        p' := TakeNext(x, i, p, h);
      } else if i != |mem[x].es| {
        p' := MergeChildren(x, i, p, h);
      } else {
        p' := MergeChildren(x, i - 1, p, h);
      }
    }

    /** `btree_get_predecessor`; the key is returned as an `int`. */
    method Predecessor(x: Ptr, i: nat, ghost p: Layout, ghost h: nat) returns (e: Entry)
      requires NodeAt(mem, p, x, h) && h > 0 && i < |p.kids|
      ensures |Erase(p).kids| == |p.kids| && |Erase(p).kids[i].es| >= 1 && Balanced(Erase(p).kids[i], h - 1)
      ensures e == Moved(LastEntry(Erase(p).kids[i], h - 1))
    {
      hide Rep, Once, Balanced;
      KidAt(mem, p, x, h, i);
      var cur := mem[x].children[i];
      ghost var c: Layout, g: nat := p.kids[i], h - 1;
      CellAt(mem, c, cur, g);
      while !mem[cur].isLeaf
        invariant NodeAt(mem, c, cur, g) && |c.es| >= 1 && LastEntry(Erase(c), g) == LastEntry(Erase(p.kids[i]), h - 1)
        invariant cur in mem && mem[cur] == Cell(c.es, Addrs(c.kids), c.kids == []) && (g == 0 <==> mem[cur].isLeaf)
        decreases g
      {
        KidAt(mem, c, cur, g, |c.kids| - 1);
        cur := mem[cur].children[|mem[cur].children| - 1];
        c, g := c.kids[|c.kids| - 1], g - 1;
        CellAt(mem, c, cur, g);
      }
      e := Moved(mem[cur].es[|mem[cur].es| - 1]);
    }

    /** `btree_get_successor`; the key is returned as an `int`. */
    method Successor(x: Ptr, i: nat, ghost p: Layout, ghost h: nat) returns (e: Entry)
      requires NodeAt(mem, p, x, h) && h > 0 && i + 1 < |p.kids|
      ensures |Erase(p).kids| == |p.kids| && |Erase(p).kids[i + 1].es| >= 1 && Balanced(Erase(p).kids[i + 1], h - 1)
      ensures e == Moved(FirstEntry(Erase(p).kids[i + 1], h - 1))
    {
      hide Rep, Once, Balanced;
      KidAt(mem, p, x, h, i + 1);
      var cur := mem[x].children[i + 1];
      ghost var c: Layout, g: nat := p.kids[i + 1], h - 1;
      CellAt(mem, c, cur, g);
      while !mem[cur].isLeaf
        invariant NodeAt(mem, c, cur, g) && |c.es| >= 1
        invariant FirstEntry(Erase(c), g) == FirstEntry(Erase(p.kids[i + 1]), h - 1)
        invariant cur in mem && mem[cur] == Cell(c.es, Addrs(c.kids), c.kids == []) && (g == 0 <==> mem[cur].isLeaf)
        decreases g
      {
        KidAt(mem, c, cur, g, 0);
        cur := mem[cur].children[0];
        c, g := c.kids[0], g - 1;
        CellAt(mem, c, cur, g);
      }
      e := Moved(mem[cur].es[0]);
    }

    /** `btree_delete_internal`; `ok` is false where a nested call panics, here and below. */
    method DeleteInternal(x: Ptr, i: nat, ghost p: Layout, ghost h: nat) returns (ok: bool, ghost p': Layout)
      requires NodeAt(mem, p, x, h) && h > 0 && i < |p.es|
      modifies this
      ensures |Erase(p).es| == |p.es| && (ok <==> CompletesAt(Erase(p), h, i))
      ensures ok ==> Became(old(mem), mem, p, p') && Erase(p') == DeleteSeparator(Erase(p), h, i)
      decreases h, 1
    {
      hide Rep, Uses, Once, Update, Balanced, DeleteFrom, BTree.Delete, LastEntry, FirstEntry, Erase, Completes,
        BTree.Search;
      ghost var m := mem;
      CellAt(mem, p, x, h);
      KidAt(mem, p, x, h, i);
      KidAt(mem, p, x, h, i + 1);
      var j, key := i, Narrow(mem[x].es[i].key);
      ghost var q := p;
      if |mem[mem[x].children[i]].es| >= BRANCHING_FACTOR {
        var e := Predecessor(x, i, p, h);
        key := e.key;
        q := WriteEntry(x, i, e, p, h);
      } else if |mem[mem[x].children[i + 1]].es| >= BRANCHING_FACTOR {
        var e := Successor(x, i, p, h);
        j, key := i + 1, e.key;
        q := WriteEntry(x, i, e, p, h);
      } else {
        q := MergeChildren(x, i, p, h);
        MergedKid(Erase(p), h, i);
      }
      CellAt(mem, q, x, h);
      KidAt(mem, q, x, h, j);
      ghost var m1 := mem;
      ok, p' := DeleteInChild(x, j, key, q, h);
      if ok {
        UpdateTwice(m, m1, mem, Uses(p), Uses(q), Uses(p'));
      }
    }

    /** The assignments to `keys[i]` and `data[i]`. */
    method WriteEntry(x: Ptr, i: nat, e: Entry, ghost p: Layout, ghost h: nat) returns (ghost p': Layout)
      requires NodeAt(mem, p, x, h) && i < |p.es|
      modifies this
      ensures Became(old(mem), mem, p, p') && p' == p.(es := p.es[i := e])
      ensures
        && Erase(p) == Tree(p.es, Erase(p).kids) && Erase(p') == Tree(p.es[i := e], Erase(p).kids)
        && Balanced(Erase(p'), h)
    {
      hide Rep, Uses, Once, Update;
      CellAt(mem, p, x, h);
      EntriesWritten(mem, p, x, h, p.es[i := e]);
      mem := mem[x := mem[x].(es := mem[x].es[i := e])];
      p' := p.(es := p.es[i := e]);
    }

    /** The call of `btree_delete` on `&x->children[j]`: that kid keeps a key, so the slot keeps its pointer. */
    method DeleteInChild(x: Ptr, j: nat, key: Key, ghost p: Layout, ghost h: nat) returns (ok: bool, ghost p': Layout)
      requires NodeAt(mem, p, x, h) && h > 0 && j < |p.kids| && |p.kids[j].es| >= 2
      modifies this
      ensures |Erase(p).kids| == |p.kids| && Balanced(Erase(p).kids[j], h - 1) && |Erase(p).kids[j].es| >= 1
      ensures ok <==>
        BTree.Search(Erase(p).kids[j], h - 1, key) != 0 && Completes(Erase(p).kids[j], h - 1, key)
      ensures ok ==>
        && Became(old(mem), mem, p, p')
        && Erase(p') == Tree(p.es, Erase(p).kids[j := DeleteFrom(Erase(p).kids[j], h - 1, key)])
      decreases h, 0
    {
      hide Rep, Uses, Once, Update, Balanced, DeleteFrom, Erase, Completes, BTree.Search;
      ghost var m := mem;
      KidAt(mem, p, x, h, j);
      KeepsKey(Erase(p.kids[j]), h - 1, key);
      ghost var kid;
      var root;
      ok, root, kid := Delete(mem[x].children[j], key, p.kids[j], h - 1);
      p' := p;
      if ok {
        KidReplaced(m, mem, p, j, kid.value);
        p' := p.(kids := p.kids[j := kid.value]);
      }
    }

    /** `btree_delete_helper`. */
    method DeleteHelper(x: Ptr, key: Key, ghost p: Layout, ghost h: nat) returns (ok: bool, ghost p': Layout)
      requires NodeAt(mem, p, x, h) && |p.es| >= 1
      modifies this
      ensures |Erase(p).es| == |p.es| && (ok <==> Completes(Erase(p), h, key))
      ensures ok ==> Became(old(mem), mem, p, p') && Erase(p') == DeleteFrom(Erase(p), h, key)
      decreases h, 2
    {
      hide Rep, Uses, Once, Update, Balanced, Inorder, DeleteSeparator, LowerPos, Fill, CompletesAt;
      ghost var m := mem;
      CellAt(mem, p, x, h);
      var i := LowerBound(mem[x].es, key);
      ok, p' := true, p;
      if mem[x].isLeaf {
        if i < |mem[x].es| && mem[x].es[i].key == key {
          EntriesWritten(mem, p, x, h, p.es[..i] + p.es[i + 1..]);
          mem := mem[x := mem[x].(es := mem[x].es[..i] + mem[x].es[i + 1..])];
          p' := p.(es := p.es[..i] + p.es[i + 1..]);
        } else {
          UpdateNothing(mem, p);
        }
        return;
      }
      KidAt(mem, p, x, h, i);
      if i < |mem[x].es| && mem[x].es[i].key == key {
        ok, p' := DeleteInternal(x, i, p, h);
        return;
      }
      var last := i == |mem[x].es|;
      ghost var q := p;
      if |mem[mem[x].children[i]].es| < BRANCHING_FACTOR {
        q := FillNode(x, i, p, h);
        FillBalanced(Erase(p), h, i);
      } else {
        UpdateNothing(mem, p);
      }
      CellAt(mem, q, x, h);
      var j := if last && i > |mem[x].es| then i - 1 else i;
      KidAt(mem, q, x, h, j);
      ghost var m1, kid := mem, q.kids[j];
      ok, kid := DeleteHelper(mem[x].children[j], key, q.kids[j], h - 1);
      if ok {
        KidReplaced(m1, mem, q, j, kid);
        p' := q.(kids := q.kids[j := kid]);
        UpdateTwice(m, m1, mem, Uses(p), Uses(q), Uses(p'));
      }
    }

    /** `btree_delete`, from any balanced tree: `ok` is false where it panics, or a call of it inside. */
    method Delete(root: Ptr, key: Key, ghost p: Layout, ghost h: nat)
      returns (ok: bool, root': Ptr, ghost p': Option<Layout>)
      requires NodeAt(mem, p, root, h) && |p.es| >= 1
      modifies this
      ensures |Erase(p).es| == |p.es|
      ensures ok <==> BTree.Search(Erase(p), h, key) != 0 && Completes(Erase(p), h, key)
      ensures BTree.Search(Erase(p), h, key) == 0 ==> mem == old(mem) && root' == root && p' == Some(p)
      ensures ok ==>
        && RootAt(mem, p', root') && Update(old(mem), mem, Uses(p), UsesOf(p'))
        && EraseOf(p') == BTree.Delete(Erase(p), h, key).0
        && (|DeleteFrom(Erase(p), h, key).es| >= 1 ==> root' == root)
      decreases h, 3
    {
      hide Rep, Uses, Once, Update, Balanced, Inorder, DeleteFrom, Completes, BTree.Search;
      ghost var m := mem;
      CellAt(mem, p, root, h);
      var d := Search(root, key, p, h);
      if d == 0 {
        UpdateNothing(mem, p);
        return false, root, Some(p);
      }
      ghost var q;
      ok, q := DeleteHelper(root, key, p, h);
      root', p' := root, Some(q);
      if ok {
        DeleteFromBalanced(Erase(p), h, key);
        CellAt(mem, q, root, h);
        if |mem[root].es| == 0 {
          ghost var m1 := mem;
          root' := if mem[root].isLeaf then NULL else mem[root].children[0];
          mem := mem - {root};
          p' := RootDropped(m1, q, h);
          UpdateTwice(m, m1, mem, Uses(p), Uses(q), UsesOf(p'));
        }
      }
    }
  }

  // ------------------------------------------------------------ a key that gets lost

  /** The tree after the keys 0, `k` and the largest one, and after a fourth key 1 has split it. */
  function ThreeKeys(k: Key, d: Data): Tree {
    Tree([Entry(0, d), Entry(k, d), Entry(TWO_64 - 1, d)], [])
  }

  lemma LeafGets(es: seq<Entry>, e: Entry)
    requires 0 < |es| < MAX_KEYS && es[|es| - 1].key <= e.key
    ensures Balanced(Tree(es, []), 0) && BTree.Insert(Some(Tree(es, [])), 0, e).0 == Tree(es + [e], [])
  {
    assert UpperPos(es, e.key) == |es|;
  }

  lemma FirstGets(e: Entry)
    ensures BTree.Insert(None, 0, e).0 == Tree([e], [])
  {
    assert UpperPos([], e.key) == 0;
  }

  /** The middle key is not what it was. */
  lemma ThreeSplit(k: Key, d: Data)
    ensures Balanced(ThreeKeys(k, d), 0) && Full(ThreeKeys(k, d))
    ensures SplitKid(Tree([], [ThreeKeys(k, d)]), 0)
      == Tree([Moved(Entry(k, d))], [Tree([Entry(0, d)], []), Tree([Entry(TWO_64 - 1, d)], [])])
  {
    NarrowKeeps(TWO_64 - 1);
  }

  lemma FourthGets(k: Key, d: Data)
    requires !FitsInt(k)
    ensures Balanced(ThreeKeys(k, d), 0)
    ensures var t := BTree.Insert(Some(ThreeKeys(k, d)), 0, Entry(1, d)).0;
      && Balanced(t, 1) && t.es == [Moved(Entry(k, d))]
      && (forall i :: 0 <= i < |t.kids| ==> t.kids[i].kids == [] && Lacks(t.kids[i].es, k))
  {
    hide SplitKid, UpperPos;
    var e := Entry(1, d);
    ThreeSplit(k, d);
    RootDivides(ThreeKeys(k, d), 0);
    var s := SplitKid(Tree([], [ThreeKeys(k, d)]), 0);
    var i := UpperPos(s.es, 1);
    LeafLacks(s.kids[i].es, k, e);
    assert BTree.InsertNonfull(s, 1, e) == Tree(s.es, s.kids[i := BTree.InsertNonfull(s.kids[i], 0, e)]);
  }

  lemma LeafLacks(es: seq<Entry>, k: Key, e: Entry)
    requires |es| == 1 && es[0].key != k && e.key != k
    ensures Balanced(Tree(es, []), 0)
    ensures var t := BTree.InsertNonfull(Tree(es, []), 0, e);
      t.kids == [] && |t.es| == 2 && Lacks(t.es, k)
  {
    hide UpperPos, SplitKid, Lacks, SpliceEs;
    TwoLack(es, UpperPos(es, e.key), k, e);
  }

  lemma TwoLack(es: seq<Entry>, i: nat, k: Key, e: Entry)
    requires |es| == 1 && i <= 1 && es[0].key != k && e.key != k
    ensures |SpliceEs(es, i, e)| == 2 && Lacks(SpliceEs(es, i, e), k)
  {
    assert SpliceEs(es, i, e) == if i == 0 then [e, es[0]] else [es[0], e];
  }

  /** No such key in the node that the search starts from, nor in any of its leaves. */
  lemma NotFound(t: Tree, k: Key)
    requires Balanced(t, 1) && Lacks(t.es, k)
    requires forall i :: 0 <= i < |t.kids| ==> t.kids[i].kids == [] && Lacks(t.kids[i].es, k)
    ensures BTree.Search(t, 1, k) == 0
  {
    var i := LowerPos(t.es, k);
    assert Balanced(t.kids[i], 0) && Lacks(t.kids[i].es, k);
  }

  /** Whatever key does not fit an `int`: after four inserts it is in the tree no more. */
  method LosesKey(k: Key, d: Data) returns (found: Data)
    requires !FitsInt(k) && d != 0
    ensures found == 0
  {
    hide Rep, Uses, Once, Update, BTree.Insert, Balanced, BTree.Search;
    var nodes := new NodeMemory();
    FirstGets(Entry(0, d));
    var root, p := nodes.Insert(NULL, Entry(0, d), None, 0);
    Holds(nodes.mem, p);
    LeafGets([Entry(0, d)], Entry(k, d));
    EraseAt(p);
    root, p := nodes.Insert(root, Entry(k, d), Some(p), 0);
    assert [Entry(0, d)] + [Entry(k, d)] == [Entry(0, d), Entry(k, d)];
    Holds(nodes.mem, p);
    LeafGets([Entry(0, d), Entry(k, d)], Entry(TWO_64 - 1, d));
    EraseAt(p);
    root, p := nodes.Insert(root, Entry(TWO_64 - 1, d), Some(p), 0);
    assert [Entry(0, d), Entry(k, d)] + [Entry(TWO_64 - 1, d)] == ThreeKeys(k, d).es;
    Holds(nodes.mem, p);
    FourthGets(k, d);
    EraseAt(p);
    root, p := nodes.Insert(root, Entry(1, d), Some(p), 0);
    NarrowKeeps(k);
    NotFound(Erase(p), k);
    found := nodes.Search(root, k, p, 1);
  }

  /** The tree after the keys `a`, the last two, and `b`; and what it has become when `k` came in, too. */
  function FourKeys(a: Key, b: Key, d: Data): Tree {
    Tree([Entry(TWO_64 - 2, d)], [Tree([Entry(a, d), Entry(b, d)], []), Tree([Entry(TWO_64 - 1, d)], [])])
  }

  function FiveKeys(a: Key, b: Key, k: Key, d: Data): Tree {
    Tree([Entry(TWO_64 - 2, d)],
         [Tree([Entry(a, d), Entry(b, d), Entry(k, d)], []), Tree([Entry(TWO_64 - 1, d)], [])])
  }

  lemma FourthComes(a: Key, b: Key, d: Data)
    requires a < b < TWO_64 - 2
    ensures var t := Tree([Entry(a, d), Entry(TWO_64 - 2, d), Entry(TWO_64 - 1, d)], []);
      Balanced(t, 0) && BTree.Insert(Some(t), 0, Entry(b, d)) == (FourKeys(a, b, d), 1)
  {
    hide SplitKid;
    var t := Tree([Entry(a, d), Entry(TWO_64 - 2, d), Entry(TWO_64 - 1, d)], []);
    RootDivides(t, 0);
    SplitIs(t);
    NarrowKeeps(TWO_64 - 2);
    NarrowKeeps(TWO_64 - 1);
    var s := SplitKid(Tree([], [t]), 0);
    assert UpperPos(s.es, b) == 0;
    LeafGets(s.kids[0].es, Entry(b, d));
    assert s.kids[0].es + [Entry(b, d)] == [Entry(a, d), Entry(b, d)];
    assert BTree.InsertNonfull(s, 1, Entry(b, d))
      == Tree(s.es, s.kids[0 := BTree.InsertNonfull(s.kids[0], 0, Entry(b, d))]);
    assert s.kids[0 := FourKeys(a, b, d).kids[0]] == FourKeys(a, b, d).kids;
  }

  lemma SplitIs(t: Tree)
    requires |t.es| == MAX_KEYS && t.kids == []
    ensures Full(t)
    ensures SplitKid(Tree([], [t]), 0)
      == Tree([Moved(t.es[1])], [Tree([t.es[0]], []), Tree([Moved(t.es[2])], [])])
  {
  }

  lemma FifthComes(a: Key, b: Key, k: Key, d: Data)
    requires a < b < k < TWO_64 - 2
    ensures Balanced(FourKeys(a, b, d), 1)
    ensures BTree.Insert(Some(FourKeys(a, b, d)), 1, Entry(k, d)) == (FiveKeys(a, b, k, d), 1)
  {
    var s := FourKeys(a, b, d);
    assert UpperPos(s.es, k) == 0;
    LeafGets(s.kids[0].es, Entry(k, d));
    assert s.kids[0].es + [Entry(k, d)] == [Entry(a, d), Entry(b, d), Entry(k, d)];
    assert BTree.InsertNonfull(s, 1, Entry(k, d))
      == Tree(s.es, s.kids[0 := BTree.InsertNonfull(s.kids[0], 0, Entry(k, d))]);
    assert s.kids[0 := FiveKeys(a, b, k, d).kids[0]] == FiveKeys(a, b, k, d).kids;
  }

  /** The predecessor of the separator is looked for under a key that is not there. */
  lemma FivePanic(a: Key, b: Key, k: Key, d: Data)
    requires Narrow(k) !in {a, b, k}
    ensures Balanced(FiveKeys(a, b, k, d), 1) && !Completes(FiveKeys(a, b, k, d), 1, TWO_64 - 2)
  {
    var t := FiveKeys(a, b, k, d);
    assert LowerPos(t.es, TWO_64 - 2) == 0;
    var l := t.kids[0];
    assert LastEntry(l, 0) == Entry(k, d);
    var i := LowerPos(l.es, Narrow(k));
    assert i < |l.es| ==> l.es[i].key in {a, b, k};
    assert BTree.Search(l, 0, Narrow(k)) == 0;
  }

  /** Whatever key does not fit an `int`: deleting another key, which does, panics after five inserts. */
  method PanicsOnDelete(k: Key, d: Data) returns (ok: bool)
    requires !FitsInt(k) && d != 0
    ensures !ok
  {
    hide Rep, Uses, Once, Update, BTree.Insert, Balanced, BTree.Search, Completes;
    var a: Key := if Narrow(k) == 1 || Narrow(k) == 2 then 3 else 1;
    var b: Key := a + 1;
    var nodes := new NodeMemory();
    FirstGets(Entry(a, d));
    var root, p := nodes.Insert(NULL, Entry(a, d), None, 0);
    Holds(nodes.mem, p);
    LeafGets([Entry(a, d)], Entry(TWO_64 - 2, d));
    EraseAt(p);
    root, p := nodes.Insert(root, Entry(TWO_64 - 2, d), Some(p), 0);
    assert [Entry(a, d)] + [Entry(TWO_64 - 2, d)] == [Entry(a, d), Entry(TWO_64 - 2, d)];
    Holds(nodes.mem, p);
    LeafGets([Entry(a, d), Entry(TWO_64 - 2, d)], Entry(TWO_64 - 1, d));
    EraseAt(p);
    root, p := nodes.Insert(root, Entry(TWO_64 - 1, d), Some(p), 0);
    assert [Entry(a, d), Entry(TWO_64 - 2, d)] + [Entry(TWO_64 - 1, d)]
      == [Entry(a, d), Entry(TWO_64 - 2, d), Entry(TWO_64 - 1, d)];
    Holds(nodes.mem, p);
    FourthComes(a, b, d);
    EraseAt(p);
    root, p := nodes.Insert(root, Entry(b, d), Some(p), 0);
    Holds(nodes.mem, p);
    FifthComes(a, b, k, d);
    EraseAt(p);
    root, p := nodes.Insert(root, Entry(k, d), Some(p), 1);
    Holds(nodes.mem, p);
    NarrowKeeps(k);
    FivePanic(a, b, k, d);
    EraseAt(p);
    ghost var p';
    ok, root, p' := nodes.Delete(root, TWO_64 - 2, p, 1);
  }

  lemma AddrsSlice(ks: seq<Layout>, a: nat, b: nat)
    requires a <= b <= |ks|
    ensures |Addrs(ks)| == |ks| && Addrs(ks[a..b]) == Addrs(ks)[a..b]
  {
  }

  lemma AddrsOfTwo(ks: seq<Layout>, i: nat, l: Layout, r: Layout)
    requires i < |ks| && l.addr == ks[i].addr
    ensures |Addrs(ks)| == |ks|
    ensures Addrs(ks[..i] + [l, r] + ks[i + 1..]) == Addrs(ks)[..i + 1] + [r.addr] + Addrs(ks)[i + 1..]
  {
  }

  /** The two halves of a full kid, the right one at a new address. */
  function LeftLayout(c: Layout): Layout
    requires |c.es| == MAX_KEYS && (c.kids == [] || |c.kids| == MAX_KEYS + 1)
  {
    Layout(c.addr, c.es[..1], if c.kids == [] then [] else c.kids[..2])
  }

  function RightLayout(c: Layout, right: Ptr): Layout
    requires |c.es| == MAX_KEYS && (c.kids == [] || |c.kids| == MAX_KEYS + 1)
  {
    Layout(right, [Moved(c.es[2])], if c.kids == [] then [] else c.kids[2..])
  }

  lemma DividedLayout(m: Memory, m': Memory, p: Layout, i: nat, right: Ptr, h: nat) returns (p': Layout)
    requires NodeAt(m, p, p.addr, h) && h > 0 && i < |p.kids| && |p.es| < MAX_KEYS && |p.kids[i].es| == MAX_KEYS
    requires right != NULL && right !in m && p.kids[i].addr in m && |p.kids| == |p.es| + 1
    requires var c := p.kids[i]; var full := m[c.addr];
      && |full.es| == 3 && (full.isLeaf || |full.children| >= 2) && i < |m[p.addr].children|
      && m' == m[right := Cell([Moved(full.es[2])], if full.isLeaf then [] else full.children[2..], full.isLeaf)]
                [c.addr := Cell(full.es[..1], if full.isLeaf then [] else full.children[..2], full.isLeaf)]
                [p.addr := Cell(SpliceEs(p.es, i, Moved(full.es[1])),
                    m[p.addr].children[..i + 1] + [right] + m[p.addr].children[i + 1..], false)]
    ensures Became(m, m', p, p') && Full(Erase(p).kids[i]) && Erase(p') == SplitKid(Erase(p), i)
  {
    hide Rep, Uses, Once, Update, SpliceEs, Addrs;
    var c := p.kids[i];
    KidAt(m, p, p.addr, h, i);
    CellAt(m, p, p.addr, h);
    CellAt(m, c, c.addr, h - 1);
    var l, r := LeftLayout(c), RightLayout(c, right);
    p' := Layout(p.addr, SpliceEs(p.es, i, Moved(c.es[1])), p.kids[..i] + [l, r] + p.kids[i + 1..]);
    if c.kids != [] {
      AddrsSlice(c.kids, 0, 2);
      AddrsSlice(c.kids, 2, 4);
      assert c.kids[0..2] == c.kids[..2] && c.kids[2..4] == c.kids[2..];
      assert Addrs(c.kids)[0..2] == Addrs(c.kids)[..2] && Addrs(c.kids)[2..4] == Addrs(c.kids)[2..];
      assert c.kids[..2] + c.kids[2..] == c.kids;
    } else {
      AddrsSlice(c.kids, 0, 0);
    }
    AddrsOfTwo(p.kids, i, l, r);
    DistinctPair(p, i);
    Divided(m, m', p, i, l, r, p');
    DividedErase(p, i, l, r, p');
  }

  lemma DistinctPair(p: Layout, i: nat)
    requires Apart(p) && i < |p.kids|
    ensures p.addr != p.kids[i].addr
  {
    UsesOne(p, i);
    assert Uses(p)[p.addr] <= 1;
  }

  lemma {:induction false} DividedErase(p: Layout, i: nat, l: Layout, r: Layout, p': Layout)
    requires i < |p.kids| == |p.es| + 1 && Full(Erase(p.kids[i]))
    requires var c := p.kids[i];
      && l.es == c.es[..1] && l.kids == (if c.kids == [] then [] else c.kids[..2])
      && r.es == [Moved(c.es[2])] && r.kids == (if c.kids == [] then [] else c.kids[2..])
      && p'.es == SpliceEs(p.es, i, Moved(c.es[1])) && p'.kids == p.kids[..i] + [l, r] + p.kids[i + 1..]
    ensures Full(Erase(p).kids[i]) && Erase(p') == SplitKid(Erase(p), i)
  {
    hide SpliceEs;
    var c := p.kids[i];
    HalvesErase(c, l, r);
    KidsErase(p, i, l, r, p');
  }

  lemma {:induction false} HalvesErase(c: Layout, l: Layout, r: Layout)
    requires Full(Erase(c))
    requires l.es == c.es[..1] && l.kids == (if c.kids == [] then [] else c.kids[..2])
    requires r.es == [Moved(c.es[2])] && r.kids == (if c.kids == [] then [] else c.kids[2..])
    ensures Erase(l) == LeftHalf(Erase(c)) && Erase(r) == RightHalf(Erase(c))
  {
    hide Erase;
    EraseAt(c);
    EraseAt(l);
    EraseAt(r);
    var t := Erase(c);
    assert Erase(l).kids == LeftHalf(t).kids;
    assert Erase(r).kids == RightHalf(t).kids;
  }

  lemma {:induction false} KidsErase(p: Layout, i: nat, l: Layout, r: Layout, p': Layout)
    requires i < |p.kids| && p'.kids == p.kids[..i] + [l, r] + p.kids[i + 1..]
    ensures i < |Erase(p).kids| && Erase(p').kids == SpliceKids(Erase(p).kids, i, Erase(l), Erase(r))
  {
    hide Erase;
    EraseAt(p);
    EraseAt(p');
    var s := SpliceKids(Erase(p).kids, i, Erase(l), Erase(r));
    forall k | 0 <= k < |p'.kids| ensures Erase(p').kids[k] == s[k] {
      if k > i + 1 {
        assert p'.kids[k] == p.kids[k - 1];
      }
    }
  }

  /** The kids, one by one. */
  lemma EraseAt(p: Layout)
    ensures Erase(p).es == p.es && |Erase(p).kids| == |p.kids| && (Erase(p).kids == [] <==> p.kids == [])
    ensures forall k :: 0 <= k < |p.kids| ==> Erase(p).kids[k] == Erase(p.kids[k])
  {
  }

  ghost function UsesOf(p: Option<Layout>): multiset<Ptr> {
    if p.None? then multiset{} else Uses(p.value)
  }

  function EraseOf(p: Option<Layout>): Option<Tree> {
    if p.None? then None else Some(Erase(p.value))
  }

  lemma NewLeaf(m: Memory, x: Ptr) returns (q: Layout)
    requires x != NULL && x !in m
    ensures q.es == [] && NodeAt(m[x := Cell([], [], true)], q, x, 0) && Erase(q) == Tree([], [])
    ensures Update(m, m[x := Cell([], [], true)], multiset{}, Uses(q))
  {
    q := Layout(x, [], []);
    assert Uses(q) == multiset{x};
  }

  lemma RowOfOne(m: Memory, p: Layout)
    requires Rep(m, p)
    ensures RepAll(m, [p]) && UsesAll([p]) == Uses(p)
  {
    var ps := [p];
    assert ps[0] == p && ps[1..] == [];
    EmptyRow();
    assert UsesAll(ps) == Uses(p) + multiset{};
  }

  lemma NewTop(m: Memory, p: Layout, h: nat, x: Ptr) returns (q: Layout)
    requires NodeAt(m, p, p.addr, h) && |p.es| == MAX_KEYS && x != NULL && x !in m
    ensures var m' := m[x := Cell([], [p.addr], false)];
      && q.es == [] && |q.kids| == 1 && q.kids[0] == p && NodeAt(m', q, x, h + 1) && Erase(q) == Tree([], [Erase(p)])
      && Update(m, m', Uses(p), Uses(q))
  {
    q := Layout(x, [], [p]);
    var m' := m[x := Cell([], [p.addr], false)];
    RepUses(m, p);
    Frame(m, m', p);
    RowOfOne(m', p);
    assert Addrs(q.kids) == [p.addr];
    RootDivides(Erase(p), h);
  }

  /** What is known about two neighbouring kids. */
  lemma PairAt(m: Memory, p: Layout, x: Ptr, h: nat, i: nat)
    requires NodeAt(m, p, x, h) && h > 0 && i + 1 < |p.kids|
    ensures var l, r := p.kids[i], p.kids[i + 1];
      && |p.kids| == |p.es| + 1 && |l.es| >= 1 && |r.es| >= 1
      && x in m && m[x] == Cell(p.es, Addrs(p.kids), false) && |Addrs(p.kids)| == |p.kids|
      && Addrs(p.kids)[i] == l.addr && Addrs(p.kids)[i + 1] == r.addr
      && l.addr in m && m[l.addr] == Cell(l.es, Addrs(l.kids), l.kids == []) && |Addrs(l.kids)| == |l.kids|
      && r.addr in m && m[r.addr] == Cell(r.es, Addrs(r.kids), r.kids == []) && |Addrs(r.kids)| == |r.kids|
      && (l.kids == [] <==> r.kids == []) && (l.kids != [] ==> |l.kids| == |l.es| + 1 && |r.kids| == |r.es| + 1)
      && x != l.addr && x != r.addr && l.addr != r.addr
  {
    hide Uses, UsesAll, Once;
    KidAt(m, p, x, h, i);
    KidAt(m, p, x, h, i + 1);
    CellAt(m, p, x, h);
    CellAt(m, p.kids[i], p.kids[i].addr, h - 1);
    CellAt(m, p.kids[i + 1], p.kids[i + 1].addr, h - 1);
    DistinctTriple(p, i);
  }

  lemma DistinctTriple(p: Layout, i: nat)
    requires Apart(p) && i + 1 < |p.kids|
    ensures p.addr != p.kids[i].addr && p.addr != p.kids[i + 1].addr && p.kids[i].addr != p.kids[i + 1].addr
  {
    hide UsesAll;
    UsesTwo(p, i);
    assert Uses(p)[p.addr] <= 1 && Uses(p)[p.kids[i].addr] <= 1;
  }

  lemma {:induction false} ErasePair(p: Layout, i: nat, l: Layout, e: Entry, r: Layout)
    requires i + 1 < |p.kids| && i < |p.es|
    ensures |Erase(p).kids| == |p.kids|
    ensures Erase(Layout(p.addr, p.es[i := e], p.kids[i := l][i + 1 := r]))
         == Tree(p.es[i := e], Erase(p).kids[i := Erase(l)][i + 1 := Erase(r)])
  {
  }

  lemma PrevLayout(m: Memory, m': Memory, p: Layout, h: nat, i: nat) returns (p': Layout)
    requires NodeAt(m, p, p.addr, h) && h > 0 && i + 1 < |p.kids| && i < |p.es|
    requires var s, c := p.kids[i], p.kids[i + 1]; var n := |s.es| - 1;
      && |s.es| >= 1 && (c.kids != [] ==> |s.kids| == n + 2) && p.addr in m
      && m' == m[p.addr := m[p.addr].(es := p.es[i := Moved(s.es[n])])]
                [s.addr := Cell(s.es[..n], if c.kids == [] then [] else Addrs(s.kids)[..n + 1], c.kids == [])]
                [c.addr := Cell([Moved(p.es[i])] + c.es,
                                if c.kids == [] then [] else [Addrs(s.kids)[n + 1]] + Addrs(c.kids), c.kids == [])]
    ensures Became(m, m', p, p')
    ensures IsNode(Erase(p), i) && Siblings(Erase(p).kids[i], Erase(p).kids[i + 1]) && |Erase(p).kids[i].es| >= 1
    ensures Erase(p') == BTree.TakePrev(Erase(p), i)
  {
    hide Rep, Uses, Once, Update, BTree.TakePrev;
    PairAt(m, p, p.addr, h, i);
    var s, c := p.kids[i], p.kids[i + 1];
    var n := |s.es| - 1;
    var l := Layout(s.addr, s.es[..n], if c.kids == [] then [] else s.kids[..n + 1]);
    var r := Layout(c.addr, [Moved(p.es[i])] + c.es, if c.kids == [] then [] else [s.kids[n + 1]] + c.kids);
    p' := Layout(p.addr, p.es[i := Moved(s.es[n])], p.kids[i := l][i + 1 := r]);
    PrevKids(s, c, n, l, r);
    Rotated(m, m', p, i, l, Moved(s.es[n]), r);
    PrevErase(p, i, l, r);
  }

  lemma PrevKids(s: Layout, c: Layout, n: nat, l: Layout, r: Layout)
    requires (c.kids == [] ==> s.kids == []) && (c.kids != [] ==> |s.kids| == n + 2)
    requires
      && l.kids == (if c.kids == [] then [] else s.kids[..n + 1])
      && r.kids == (if c.kids == [] then [] else [s.kids[n + 1]] + c.kids)
    ensures l.kids + r.kids == s.kids + c.kids
    ensures Addrs(l.kids) == if c.kids == [] then [] else Addrs(s.kids)[..n + 1]
    ensures Addrs(r.kids) == if c.kids == [] then [] else [Addrs(s.kids)[n + 1]] + Addrs(c.kids)
  {
  }

  lemma {:induction false} PrevErase(p: Layout, i: nat, l: Layout, r: Layout)
    requires i + 1 < |p.kids| && IsNode(Erase(p), i) && Siblings(Erase(p).kids[i], Erase(p).kids[i + 1])
    requires var s, c := p.kids[i], p.kids[i + 1]; var n := |s.es| - 1;
      && |s.es| >= 1 && |p.kids| == |p.es| + 1 && (c.kids != [] ==> |s.kids| == n + 2)
      && l.es == s.es[..n] && l.kids == (if c.kids == [] then [] else s.kids[..n + 1])
      && r.es == [Moved(p.es[i])] + c.es && r.kids == if c.kids == [] then [] else [s.kids[n + 1]] + c.kids
    ensures |Erase(p).kids[i].es| >= 1
    ensures Erase(Layout(p.addr, p.es[i := Moved(p.kids[i].es[|p.kids[i].es| - 1])], p.kids[i := l][i + 1 := r]))
         == BTree.TakePrev(Erase(p), i)
  {
    hide Erase;
    var s, c := p.kids[i], p.kids[i + 1];
    var n := |s.es| - 1;
    ErasePair(p, i, l, Moved(s.es[n]), r);
    EraseAt(p);
    EraseAt(s);
    EraseAt(c);
    EraseAt(l);
    EraseAt(r);
    assert Erase(l).kids == if c.kids == [] then [] else Erase(s).kids[..n + 1];
    assert Erase(r).kids == if c.kids == [] then [] else [Erase(s).kids[n + 1]] + Erase(c).kids;
  }

  lemma NextLayout(m: Memory, m': Memory, p: Layout, h: nat, i: nat) returns (p': Layout)
    requires NodeAt(m, p, p.addr, h) && h > 0 && i + 1 < |p.kids| && i < |p.es|
    requires var c, s := p.kids[i], p.kids[i + 1];
      && |s.es| >= 1 && (c.kids != [] ==> |s.kids| >= 1) && p.addr in m
      && m' == m[p.addr := m[p.addr].(es := p.es[i := Moved(s.es[0])])]
                [c.addr := Cell(c.es + [Moved(p.es[i])],
                                if c.kids == [] then [] else Addrs(c.kids) + [Addrs(s.kids)[0]], c.kids == [])]
                [s.addr := Cell(s.es[1..], if c.kids == [] then [] else Addrs(s.kids)[1..], c.kids == [])]
    ensures Became(m, m', p, p')
    ensures IsNode(Erase(p), i) && Siblings(Erase(p).kids[i], Erase(p).kids[i + 1]) && |Erase(p).kids[i + 1].es| >= 1
    ensures Erase(p') == BTree.TakeNext(Erase(p), i)
  {
    hide Rep, Uses, Once, Update;
    PairAt(m, p, p.addr, h, i);
    var c, s := p.kids[i], p.kids[i + 1];
    var l := Layout(c.addr, c.es + [Moved(p.es[i])], if c.kids == [] then [] else c.kids + [s.kids[0]]);
    var r := Layout(s.addr, s.es[1..], if c.kids == [] then [] else s.kids[1..]);
    p' := Layout(p.addr, p.es[i := Moved(s.es[0])], p.kids[i := l][i + 1 := r]);
    NextKids(c, s, l, r);
    Rotated(m, m', p, i, l, Moved(s.es[0]), r);
    NextErase(p, i, l, r);
  }

  lemma NextKids(c: Layout, s: Layout, l: Layout, r: Layout)
    requires (c.kids == [] ==> s.kids == []) && (c.kids != [] ==> |s.kids| >= 1)
    requires
      && l.kids == (if c.kids == [] then [] else c.kids + [s.kids[0]])
      && r.kids == (if c.kids == [] then [] else s.kids[1..])
    ensures l.kids + r.kids == c.kids + s.kids
    ensures Addrs(l.kids) == if c.kids == [] then [] else Addrs(c.kids) + [Addrs(s.kids)[0]]
    ensures Addrs(r.kids) == if c.kids == [] then [] else Addrs(s.kids)[1..]
  {
  }

  lemma {:induction false} NextErase(p: Layout, i: nat, l: Layout, r: Layout)
    requires i + 1 < |p.kids| && IsNode(Erase(p), i) && Siblings(Erase(p).kids[i], Erase(p).kids[i + 1])
    requires var c, s := p.kids[i], p.kids[i + 1];
      && |s.es| >= 1 && |p.kids| == |p.es| + 1 && (c.kids != [] ==> |s.kids| >= 1)
      && l.es == c.es + [Moved(p.es[i])] && l.kids == (if c.kids == [] then [] else c.kids + [s.kids[0]])
      && r.es == s.es[1..] && r.kids == if c.kids == [] then [] else s.kids[1..]
    ensures |Erase(p).kids[i + 1].es| >= 1
    ensures Erase(Layout(p.addr, p.es[i := Moved(p.kids[i + 1].es[0])], p.kids[i := l][i + 1 := r]))
      == BTree.TakeNext(Erase(p), i)
  {
    hide Erase;
    var c, s := p.kids[i], p.kids[i + 1];
    ErasePair(p, i, l, Moved(s.es[0]), r);
    EraseAt(p);
    EraseAt(s);
    EraseAt(c);
    EraseAt(l);
    EraseAt(r);
    assert Erase(l).kids == if c.kids == [] then [] else Erase(c).kids + [Erase(s).kids[0]];
    assert Erase(r).kids == if c.kids == [] then [] else Erase(s).kids[1..];
  }

  lemma MergedLayout(m: Memory, m': Memory, p: Layout, h: nat, i: nat) returns (p': Layout)
    requires NodeAt(m, p, p.addr, h) && h > 0 && i + 1 < |p.kids| && |p.kids| == |p.es| + 1
    requires var c, s := p.kids[i], p.kids[i + 1];
      m' == m[p.addr := Cell(p.es[..i] + p.es[i + 1..], Addrs(p.kids)[..i + 1] + Addrs(p.kids)[i + 2..], false)]
             [c.addr := Cell(c.es + [Moved(p.es[i])] + MovedAll(s.es), Addrs(c.kids) + Addrs(s.kids), c.kids == [])]
            - {s.addr}
    ensures Became(m, m', p, p')
    ensures IsNode(Erase(p), i) && Erase(p') == Merge(Erase(p), i)
  {
    hide Rep, Uses, Once, Update;
    PairAt(m, p, p.addr, h, i);
    var l, s := p.kids[i], p.kids[i + 1];
    var c := Layout(l.addr, l.es + [Moved(p.es[i])] + MovedAll(s.es), l.kids + s.kids);
    p' := Layout(p.addr, p.es[..i] + p.es[i + 1..], p.kids[..i] + [c] + p.kids[i + 2..]);
    assert Addrs(c.kids) == Addrs(l.kids) + Addrs(s.kids);
    assert Addrs(p'.kids) == Addrs(p.kids)[..i + 1] + Addrs(p.kids)[i + 2..];
    Merged(m, m', p, i, c, p');
    assert Erase(c).kids == Erase(l).kids + Erase(s).kids;
    assert Erase(p').kids == Erase(p).kids[..i] + [Erase(c)] + Erase(p).kids[i + 2..];
  }

  /** Keys in order that fit an `int`, and no NULL data: what `btree_delete` relies on to find a key again. */
  ghost predicate Ordered(t: Tree) {
    Sorted(Inorder(t)) && Stored(Inorder(t)) && AllFit(Inorder(t))
  }

  ghost predicate Stored(s: seq<Entry>) {
    forall j :: 0 <= j < |s| ==> s[j].data != 0
  }

  ghost predicate RootAt(m: Memory, p: Option<Layout>, root: Ptr) {
    if p.None? then root == NULL else Rep(m, p.value) && Apart(p.value) && p.value.addr == root
  }

  lemma OrderedFits(t: Tree)
    requires Ordered(t)
    ensures AllFit(Inorder(t))
  {
  }

  lemma KidOrdered(t: Tree, i: nat)
    requires |t.kids| == |t.es| + 1 && i < |t.kids| && Ordered(t)
    ensures Ordered(t.kids[i])
  {
    hide Inorder, Sorted;
    KidSorted(t, i);
    KidFits(t, i);
    KidStored(t, i);
  }

  lemma KidStored(t: Tree, i: nat)
    requires |t.kids| == |t.es| + 1 && i < |t.kids| && Stored(Inorder(t))
    ensures Stored(Inorder(t.kids[i]))
  {
    hide Flat, Inorder;
    KidSlice(t, i);
    var a := |Before(t.es, t.kids, i)|;
    forall j | 0 <= j < |Inorder(t.kids[i])| ensures Inorder(t.kids[i])[j].data != 0 {
      assert Inorder(t)[a + j].data != 0;
    }
  }

  lemma KidSlice(t: Tree, i: nat)
    requires |t.kids| == |t.es| + 1 && i < |t.kids|
    ensures var a := |Before(t.es, t.kids, i)|;
      a + |Inorder(t.kids[i])| <= |Inorder(t)|
      && forall j :: 0 <= j < |Inorder(t.kids[i])| ==> Inorder(t)[a + j] == Inorder(t.kids[i])[j]
  {
    hide Flat;
    assert t.kids[i := t.kids[i]] == t.kids;
    FlatKid(t.es, t.kids, i, t.kids[i]);
  }

  lemma PredecessorReady(t: Tree, h: nat, i: nat)
    requires h > 0 && Balanced(t, h) && i < |t.es| && Ordered(t)
    ensures |t.kids| == |t.es| + 1 && Balanced(t.kids[i], h - 1) && |t.kids[i].es| >= 1 && Ordered(t.kids[i])
    ensures !Lacks(Inorder(t.kids[i]), Moved(LastEntry(t.kids[i], h - 1)).key)
  {
    hide Inorder, Balanced;
    NodeCounts(t, h);
    EndsFit(t, h, i);
    KidOrdered(t, i);
    LastIsLast(t.kids[i], h - 1);
  }

  lemma SuccessorReady(t: Tree, h: nat, i: nat)
    requires h > 0 && Balanced(t, h) && i < |t.es| && Ordered(t)
    ensures |t.kids| == |t.es| + 1 && Balanced(t.kids[i + 1], h - 1) && |t.kids[i + 1].es| >= 1
    ensures Ordered(t.kids[i + 1])
    ensures !Lacks(Inorder(t.kids[i + 1]), Moved(FirstEntry(t.kids[i + 1], h - 1)).key)
  {
    hide Inorder, Balanced;
    NodeCounts(t, h);
    EndsFit(t, h, i);
    KidOrdered(t, i + 1);
    FirstIsFirst(t.kids[i + 1], h - 1);
  }

  lemma MergeReady(t: Tree, h: nat, i: nat)
    requires h > 0 && Balanced(t, h) && i < |t.es| && Ordered(t) && |t.kids[i].es| == 1 && |t.kids[i + 1].es| == 1
    ensures var t' := Merge(t, i);
      && Balanced(t', h) && i < |t'.kids| && |t'.kids[i].es| == MAX_KEYS && Ordered(t'.kids[i])
      && !Lacks(Inorder(t'.kids[i]), Narrow(t.es[i].key))
  {
    hide Inorder;
    MergeKeeps(t, h, i);
    var t' := Merge(t, i);
    NodeCounts(t', h);
    KidOrdered(t', i);
    assert t'.kids[i].es[1] == Moved(t.es[i]);
    assert Balanced(t'.kids[i], h - 1);
    EntryIn(t'.kids[i], 1);
  }

  lemma KeepsKey(t: Tree, h: nat, k: Key)
    requires Balanced(t, h) && |t.es| >= 2
    ensures |DeleteFrom(t, h, k).es| >= 1
    ensures BTree.Delete(t, h, k).0 == Some(DeleteFrom(t, h, k))
  {
    hide DeleteFrom;
    DeleteFromBalanced(t, h, k);
  }

  lemma MergedKid(t: Tree, h: nat, i: nat)
    requires h > 0 && Balanced(t, h) && i < |t.es| && |t.kids[i].es| == 1 && |t.kids[i + 1].es| == 1
    ensures var t' := Merge(t, i); Balanced(t', h) && i < |t'.kids| && |t'.kids[i].es| == MAX_KEYS
  {
    MergeBalanced(t, h, i);
  }

  /** From an index whose keys fit, every nested call finds what it looks for. */
  lemma {:induction false} OrderedCompletes(t: Tree, h: nat, k: Key)
    requires Balanced(t, h) && (h == 0 || |t.es| >= 1) && Ordered(t)
    ensures Completes(t, h, k)
    decreases h, 1
  {
    hide LowerPos, Ordered, Fill, CompletesAt, Inorder;
    var i := LowerPos(t.es, k);
    if h > 0 {
      NodeCounts(t, h);
      if i < |t.es| && t.es[i].key == k {
        SeparatorCompletes(t, h, i);
      } else if |t.kids[i].es| < BRANCHING_FACTOR {
        OrderedFits(t);
        FillKeeps(t, h, i);
        var t' := Fill(t, i);
        var j := FilledPos(t, t', i);
        FilledOrdered(t, t', j);
        OrderedCompletes(t'.kids[j], h - 1, k);
      } else {
        KidOrdered(t, i);
        OrderedCompletes(t.kids[i], h - 1, k);
      }
    }
  }

  lemma {:induction false} SeparatorCompletes(t: Tree, h: nat, i: nat)
    requires h > 0 && Balanced(t, h) && i < |t.es| && Ordered(t)
    ensures CompletesAt(t, h, i)
    decreases h, 0
  {
    hide Ordered, Merge, Completes, BTree.Search, Inorder, LastEntry, FirstEntry;
    NodeCounts(t, h);
    var l, r := t.kids[i], t.kids[i + 1];
    if |l.es| >= BRANCHING_FACTOR {
      PredecessorReady(t, h, i);
      NestedCompletes(l, h - 1, Narrow(LastEntry(l, h - 1).key));
    } else if |r.es| >= BRANCHING_FACTOR {
      SuccessorReady(t, h, i);
      NestedCompletes(r, h - 1, Narrow(FirstEntry(r, h - 1).key));
    } else {
      MergeReady(t, h, i);
      NodeCounts(Merge(t, i), h);
      NestedCompletes(Merge(t, i).kids[i], h - 1, Narrow(t.es[i].key));
    }
  }

  lemma {:induction false} NestedCompletes(t: Tree, h: nat, k: Key)
    requires Balanced(t, h) && |t.es| >= 1 && Ordered(t) && !Lacks(Inorder(t), k)
    ensures BTree.Search(t, h, k) != 0 && Completes(t, h, k)
    decreases h, 2
  {
    hide Completes, BTree.Search, Inorder;
    SearchTells(t, h, k);
    OrderedCompletes(t, h, k);
  }

  /**
   * Where keys are in order but may not fit an `int`: deleting a separator by its predecessor or successor
   * finds the narrowed key just if that is a key of the kid, and after a merge just if it is not below the
   * keys that are left of it.
   */
  lemma NestedFinds(t: Tree, h: nat, i: nat)
    requires h > 0 && Balanced(t, h) && i < |t.es| && Sorted(Inorder(t)) && Stored(Inorder(t))
    ensures |t.kids| == |t.es| + 1 && Balanced(t.kids[i], h - 1) && Balanced(t.kids[i + 1], h - 1)
    ensures |t.kids[i].es| >= 1 && |t.kids[i + 1].es| >= 1
    ensures var l := t.kids[i]; var k := Narrow(LastEntry(l, h - 1).key);
      BTree.Search(l, h - 1, k) != 0 <==> !Lacks(Inorder(l), k)
    ensures var r := t.kids[i + 1]; var k := Narrow(FirstEntry(r, h - 1).key);
      BTree.Search(r, h - 1, k) != 0 <==> !Lacks(Inorder(r), k)
    ensures |t.kids[i].es| == 1 && |t.kids[i + 1].es| == 1 ==>
      var l, k := t.kids[i], Narrow(t.es[i].key);
      && Balanced(Merge(t, i), h) && Balanced(Merge(t, i).kids[i], h - 1)
      && (BTree.Search(Merge(t, i).kids[i], h - 1, k) != 0
          <==> l.es[0].key <= k || (l.kids != [] && !Lacks(Inorder(l.kids[0]), k)))
  {
    hide BTree.Search, Inorder, Merge;
    NodeCounts(t, h);
    KidFinds(t, h, i, Narrow(LastEntry(t.kids[i], h - 1).key));
    KidFinds(t, h, i + 1, Narrow(FirstEntry(t.kids[i + 1], h - 1).key));
    if |t.kids[i].es| == 1 && |t.kids[i + 1].es| == 1 {
      MergedFinds(t, h, i);
    }
  }

  lemma KidFinds(t: Tree, h: nat, j: nat, k: Key)
    requires h > 0 && Balanced(t, h) && j < |t.kids| && Sorted(Inorder(t)) && Stored(Inorder(t))
    ensures Balanced(t.kids[j], h - 1)
    ensures BTree.Search(t.kids[j], h - 1, k) != 0 <==> !Lacks(Inorder(t.kids[j]), k)
  {
    hide BTree.Search, Inorder;
    NodeCounts(t, h);
    KidSorted(t, j);
    KidStored(t, j);
    SearchTells(t.kids[j], h - 1, k);
  }

  lemma MergedFinds(t: Tree, h: nat, i: nat)
    requires h > 0 && Balanced(t, h) && i < |t.es| && Sorted(Inorder(t)) && Stored(Inorder(t))
    requires |t.kids[i].es| == 1 && |t.kids[i + 1].es| == 1
    ensures var l, k := t.kids[i], Narrow(t.es[i].key);
      && Balanced(Merge(t, i), h) && Balanced(Merge(t, i).kids[i], h - 1)
      && (BTree.Search(Merge(t, i).kids[i], h - 1, k) != 0
          <==> l.es[0].key <= k || (l.kids != [] && !Lacks(Inorder(l.kids[0]), k)))
  {
    hide Inorder;
    NodeCounts(t, h);
    MergeBalanced(t, h, i);
    NodeCounts(Merge(t, i), h);
    var l, kid, k := t.kids[i], Merge(t, i).kids[i], Narrow(t.es[i].key);
    EntryStored(t, i);
    KidSorted(t, i);
    KidStored(t, i);
    EntryStored(l, 0);
    assert kid.es[0] == l.es[0] && kid.es[1] == Moved(t.es[i]);
    assert LowerPos(kid.es, k) == if k <= l.es[0].key then 0 else 1;
    if h > 1 {
      NodeCounts(l, h - 1);
      assert kid.kids[0] == l.kids[0];
      KidSorted(l, 0);
      KidStored(l, 0);
      SearchTells(l.kids[0], h - 2, k);
    }
  }

  lemma EntryStored(t: Tree, j: nat)
    requires j < |t.es| && (t.kids == [] || |t.kids| == |t.es| + 1) && Stored(Inorder(t))
    ensures t.es[j].data != 0
  {
    if t.kids == [] {
      LeafInorder(t);
    } else {
      AtEntry(t.es, t.kids, j);
      var n := |Before(t.es, t.kids, j)| + |Inorder(t.kids[j])|;
      assert Inorder(t)[n] == t.es[j];
    }
  }

  lemma FilledOrdered(t: Tree, t': Tree, j: nat)
    requires |t'.kids| == |t'.es| + 1 && j < |t'.kids| && Ordered(t) && Inorder(t') == Inorder(t)
    ensures Ordered(t'.kids[j])
  {
    KidOrdered(t', j);
  }

  /** On such a tree the search that guards a deletion answers NULL exactly for absent keys. */
  lemma SearchTells(t: Tree, h: nat, k: Key)
    requires Balanced(t, h) && Sorted(Inorder(t)) && Stored(Inorder(t))
    ensures BTree.Search(t, h, k) == 0 <==> Lacks(Inorder(t), k)
  {
    hide Inorder;
    SearchFinds(t, h, k);
    FindTells(Inorder(t), k);
  }

  lemma {:induction false} FindTells(s: seq<Entry>, k: Key)
    requires Stored(s)
    ensures Find(s, k) == 0 <==> Lacks(s, k)
  {
    if s != [] {
      assert s[0].data != 0;
      assert forall j :: 0 <= j < |s[1..]| ==> s[1..][j] == s[j + 1];
      FindTells(s[1..], k);
      assert Lacks(s, k) <==> s[0].key != k && Lacks(s[1..], k) by {
        assert forall j :: 0 < j < |s| ==> s[j] == s[1..][j - 1];
      }
    }
  }

  /** Freeing a root without keys leaves its only kid, or nothing. */
  lemma RootDropped(m: Memory, q: Layout, h: nat) returns (p': Option<Layout>)
    requires NodeAt(m, q, q.addr, h) && q.es == []
    ensures var root := if q.kids == [] then NULL else q.kids[0].addr;
      RootAt(m - {q.addr}, p', root) && Update(m, m - {q.addr}, Uses(q), UsesOf(p'))
    ensures EraseOf(p') == if h == 0 then None else Some(Erase(q).kids[0])
  {
    if h == 0 {
      p' := None;
      assert Uses(q) == multiset{q.addr};
    } else {
      KidAt(m, q, q.addr, h, 0);
      var kid := q.kids[0];
      assert q.kids == [kid];
      p' := Some(kid);
      RepUses(m, q);
      RowOfOne(m, kid);
      assert Uses(q)[q.addr] <= 1;
      Frame(m, m - {q.addr}, kid);
    }
  }
}
