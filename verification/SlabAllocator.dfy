/**
 * The slab allocator: how a page block is divided into objects, which block size is chosen,
 * the free chains through the control words behind the objects, and the red zones around them.
 */
module SlabAllocator {
  const PAGE_SIZE := 4096
  const PAGE_NSIZES := 8
  const SLAB_MAX_ORDER := 5
  /** sizeof(slab_bufctl_t), with its free flag, and sizeof(struct slab). */
  const CTL := 16
  const HEAD := 32
  /** The size of a red zone, of which an object has two, and what is stored there. */
  const ZONE := 8
  const RED_ZONE := 0xdeadbeefdeadbeef
  const NULL := 0

  type Addr = nat

  // ------------------------------------------------------------------------ sizes

  function BlockSize(order: nat): nat {
    if order == 0 then PAGE_SIZE else 2 * BlockSize(order - 1)
  }

  function SlabSize(objsize: nat, n: nat): nat {
    n * (objsize + CTL) + HEAD
  }

  function NumObjs(objsize: nat, order: nat): nat
    requires BlockSize(order) >= HEAD
  {
    (BlockSize(order) - HEAD) / (objsize + CTL)
  }

  lemma {:induction false} BlockGrows(i: nat, j: nat)
    requires i <= j
    ensures PAGE_SIZE <= BlockSize(i) <= BlockSize(j)
    decreases i + j
  {
    if i < j {
      BlockGrows(i, j - 1);
    } else if i > 0 {
      BlockGrows(i - 1, i - 1);
    }
  }

  lemma Quotient(a: nat, d: nat)
    requires d > 0
    ensures a / d * d <= a < (a / d + 1) * d
  {
  }

  lemma Product(m: nat, n: nat, d: nat)
    requires m <= n
    ensures m * d <= n * d
  {
  }

  /** As many objects as a block of that order has room for, and no more. */
  lemma NumObjsIsMost(objsize: nat, order: nat, n: nat)
    requires BlockSize(order) >= HEAD
    ensures SlabSize(objsize, n) <= BlockSize(order) <==> n <= NumObjs(objsize, order)
  {
    hide BlockSize;
    var q, d := NumObjs(objsize, order), objsize + CTL;
    Quotient(BlockSize(order) - HEAD, d);
    if n <= q {
      Product(n, q, d);
    } else {
      Product(q + 1, n, d);
    }
  }

  function Waste(objsize: nat, order: nat): nat
    requires BlockSize(order) >= HEAD
  {
    NumObjsIsMost(objsize, order, NumObjs(objsize, order));
    BlockSize(order) - SlabSize(objsize, NumObjs(objsize, order))
  }

  /** The orders that are searched: from the least that holds one object up to a fixed bound. */
  predicate Searched(least: nat, order: nat) {
    order == least || least < order < SLAB_MAX_ORDER
  }

  predicate IsLeast(objsize: nat, least: nat) {
    SlabSize(objsize, 1) <= BlockSize(least) && forall o :: 0 <= o < least ==> BlockSize(o) < SlabSize(objsize, 1)
  }

  /** No searched order wastes less, and no smaller one as little. */
  ghost predicate IsBest(objsize: nat, least: nat, order: nat) {
    Sizes();
    && Searched(least, order)
    && (forall o: nat :: Searched(least, o) ==> Waste(objsize, order) <= Waste(objsize, o))
    && (forall o: nat :: Searched(least, o) && o < order ==> Waste(objsize, order) < Waste(objsize, o))
  }

  lemma Sizes()
    ensures forall o: nat :: BlockSize(o) >= PAGE_SIZE
  {
    forall o: nat ensures BlockSize(o) >= PAGE_SIZE {
      BlockGrows(o, o);
    }
  }

  /** The least order that holds one object; PAGE_NSIZES when none does. */
  method LeastOrder(objsize: nat) returns (least: nat)
    ensures least <= PAGE_NSIZES && (least < PAGE_NSIZES ==> IsLeast(objsize, least))
    ensures least == PAGE_NSIZES ==> forall o :: 0 <= o < PAGE_NSIZES ==> BlockSize(o) < SlabSize(objsize, 1)
  {
    var size := SlabSize(objsize, 1);
    least := 0;
    while least < PAGE_NSIZES
      invariant 0 <= least <= PAGE_NSIZES && forall o :: 0 <= o < least ==> BlockSize(o) < size
    {
      if BlockSize(least) >= size {
        return;
      }
      least := least + 1;
    }
  }

  /** The block size and the objects per slab; `ok` is false where the kernel panics. */
  method CalcSlabSize(objsize: nat) returns (ok: bool, order: nat, nobjs: nat)
    ensures ok <==> SlabSize(objsize, 1) <= BlockSize(PAGE_NSIZES - 1)
    ensures forall o: nat :: BlockSize(o) >= HEAD
    ensures ok ==> nobjs == NumObjs(objsize, order) && nobjs >= 1 && order < PAGE_NSIZES
    ensures ok ==> exists least: nat :: IsLeast(objsize, least) && IsBest(objsize, least, order)
  {
    hide BlockSize, NumObjs, SlabSize, Waste;
    Sizes();
    var least := LeastOrder(objsize);
    if least == PAGE_NSIZES {
      assert BlockSize(PAGE_NSIZES - 1) < SlabSize(objsize, 1);
      return false, 0, 0;
    }
    BlockGrows(least, PAGE_NSIZES - 1);
    ok, order := true, least;
    var best := Waste(objsize, least);
    var o := least + 1;
    while o < SLAB_MAX_ORDER
      invariant least < o && Searched(least, order) && order < o && best == Waste(objsize, order) && order < PAGE_NSIZES
      invariant forall x: nat :: Searched(least, x) && x < o ==> best <= Waste(objsize, x)
      invariant forall x: nat :: Searched(least, x) && x < order ==> best < Waste(objsize, x)
    {
      var w := Waste(objsize, o);
      if w < best {
        best, order := w, o;
      }
      o := o + 1;
    }
    nobjs := NumObjs(objsize, order);
    BlockGrows(least, order);
    NumObjsIsMost(objsize, order, 1);
    assert IsLeast(objsize, least) && IsBest(objsize, least, order);
  }

  // ------------------------------------------------------------------------ layout

  /** Where object `k` of a slab starts; after the last one comes the slab structure. */
  function ObjAt(objsize: nat, addr: Addr, k: nat): Addr {
    addr + k * (objsize + CTL)
  }

  lemma ObjAtStep(objsize: nat, addr: Addr, k: nat)
    ensures ObjAt(objsize, addr, 0) == addr && ObjAt(objsize, addr, k + 1) == ObjAt(objsize, addr, k) + objsize + CTL
  {
  }

  lemma ObjAtOrder(objsize: nat, addr: Addr, j: nat, k: nat)
    requires j < k
    ensures ObjAt(objsize, addr, j) + objsize + CTL <= ObjAt(objsize, addr, k)
  {
    ObjAtStep(objsize, addr, j);
    Product(j + 1, k, objsize + CTL);
  }

  /** A stretch of bytes. */
  datatype Region = Region(from: Addr, size: nat)

  predicate Disjoint(a: Region, b: Region) {
    a.from + a.size <= b.from || b.from + b.size <= a.from
  }

  predicate Within(a: Region, b: Region) {
    b.from <= a.from && a.from + a.size <= b.from + b.size
  }

  /** The size of an object with its two red zones. */
  function WithZones(size: nat): nat {
    size + 2 * ZONE
  }

  /** The pieces of a slab: front zone, body, rear zone and control word of each object, and the header last. */
  function Piece(size: nat, nobjs: nat, addr: Addr, i: nat): Region {
    var obj := ObjAt(WithZones(size), addr, i / 4);
    if i == 4 * nobjs then Region(obj, HEAD)
    else if i % 4 == 0 then Region(obj, ZONE)
    else if i % 4 == 1 then Region(obj + ZONE, size)
    else if i % 4 == 2 then Region(obj + ZONE + size, ZONE)
    else Region(obj + WithZones(size), CTL)
  }

  /** No two pieces overlap, and all lie within the page block. */
  lemma LayoutFits(size: nat, order: nat, addr: Addr, i: nat, j: nat)
    requires BlockSize(order) >= HEAD && i < j <= 4 * NumObjs(WithZones(size), order)
    ensures var n := NumObjs(WithZones(size), order);
      && Disjoint(Piece(size, n, addr, i), Piece(size, n, addr, j))
      && Within(Piece(size, n, addr, i), Region(addr, BlockSize(order)))
      && Within(Piece(size, n, addr, j), Region(addr, BlockSize(order)))
  {
    hide BlockSize, NumObjs, ObjAt;
    var n := NumObjs(WithZones(size), order);
    SlabEnds(WithZones(size), order, addr);
    PieceFits(size, n, addr, i);
    PieceFits(size, n, addr, j);
    if i / 4 < j / 4 {
      ObjAtOrder(WithZones(size), addr, i / 4, j / 4);
    }
  }

  lemma SlabEnds(objsize: nat, order: nat, addr: Addr)
    requires BlockSize(order) >= HEAD
    ensures ObjAt(objsize, addr, NumObjs(objsize, order)) + HEAD <= addr + BlockSize(order)
  {
    hide BlockSize;
    NumObjsIsMost(objsize, order, NumObjs(objsize, order));
  }

  lemma PieceFits(size: nat, n: nat, addr: Addr, i: nat)
    requires i <= 4 * n
    ensures var r := Piece(size, n, addr, i);
      addr <= r.from && r.from + r.size <= ObjAt(WithZones(size), addr, n) + HEAD
  {
    hide ObjAt;
    ObjAtStep(WithZones(size), addr, 0);
    if i / 4 > 0 {
      ObjAtOrder(WithZones(size), addr, 0, i / 4);
    }
    if i / 4 < n {
      ObjAtOrder(WithZones(size), addr, i / 4, n);
    }
  }

  // ------------------------------------------------------------------------ one slab

  datatype Header = Header(next: Addr, inuse: nat, free: Addr, addr: Addr)

  /** The control word of an object: the next free object, or the slab of a live one, and whether it is free. */
  datatype Control = Control(link: Addr, free: bool)

  /** The control words, by address. */
  type Ctl = map<Addr, Control>

  datatype Shape = Shape(objsize: nat, nobjs: nat, block: nat)

  predicate IsObj(g: Shape, addr: Addr, c: Addr) {
    exists k :: 0 <= k < g.nobjs && c == ObjAt(g.objsize, addr, k)
  }

  ghost predicate Linked(g: Shape, ctl: Ctl, p: Addr, chain: seq<Addr>)
    decreases |chain|
  {
    if chain == [] then p == NULL
    else
      && p == chain[0] && p != NULL && p + g.objsize in ctl && ctl[p + g.objsize].free
      && Linked(g, ctl, ctl[p + g.objsize].link, chain[1..])
  }

  ghost predicate Distinct(s: seq<Addr>) {
    forall i, j :: 0 <= i < j < |s| ==> s[i] != s[j]
  }

  /** The objects of a slab are either in its free chain or live; a live one knows its slab. */
  ghost predicate Split(g: Shape, h: Addr, addr: Addr, chain: seq<Addr>, ctl: Ctl, live: set<Addr>) {
    && (forall c :: c in chain ==> IsObj(g, addr, c))
    && (forall c: Addr :: IsObj(g, addr, c) ==> (c in live <==> c !in chain))
    && (forall c: Addr :: IsObj(g, addr, c) && c in live ==>
          c + g.objsize in ctl && ctl[c + g.objsize] == Control(h, false))
  }

  ghost predicate SlabOk(g: Shape, h: Addr, hd: Header, chain: seq<Addr>, ctl: Ctl, live: set<Addr>) {
    && h == ObjAt(g.objsize, hd.addr, g.nobjs) && hd.addr > 0
    && |chain| + hd.inuse == g.nobjs && Linked(g, ctl, hd.free, chain) && Distinct(chain)
    && Split(g, h, hd.addr, chain, ctl, live)
  }

  lemma {:induction false} LinkedFrame(g: Shape, ctl: Ctl, ctl': Ctl, p: Addr, chain: seq<Addr>)
    requires
      && Linked(g, ctl, p, chain)
      && forall c ::
           c in chain && c + g.objsize in ctl ==> c + g.objsize in ctl' && ctl'[c + g.objsize] == ctl[c + g.objsize]
    ensures Linked(g, ctl', p, chain)
    decreases |chain|
  {
    if chain != [] {
      assert chain[0] in chain && forall c :: c in chain[1..] ==> c in chain;
      LinkedFrame(g, ctl, ctl', ctl[p + g.objsize].link, chain[1..]);
    }
  }

  /** Nothing that happens to other objects matters to a slab. */
  lemma SlabFrame(g: Shape, h: Addr, hd: Header, chain: seq<Addr>, ctl: Ctl, live: set<Addr>, ctl': Ctl,
                  live': set<Addr>)
    requires SlabOk(g, h, hd, chain, ctl, live)
    requires forall c: Addr ::
      IsObj(g, hd.addr, c) && c + g.objsize in ctl ==>
        c + g.objsize in ctl' && ctl'[c + g.objsize] == ctl[c + g.objsize]
    requires forall c: Addr :: IsObj(g, hd.addr, c) ==> (c in live <==> c in live')
    ensures SlabOk(g, h, hd, chain, ctl', live')
  {
    hide IsObj, Linked, Distinct;
    LinkedFrame(g, ctl, ctl', hd.free, chain);
  }

  /** Taking the first object of the chain. */
  lemma TakeOk(g: Shape, h: Addr, hd: Header, chain: seq<Addr>, ctl: Ctl, live: set<Addr>)
    requires SlabOk(g, h, hd, chain, ctl, live) && chain != []
    ensures var c := chain[0];
      && c == hd.free && c != NULL && c !in live && IsObj(g, hd.addr, c) && c + g.objsize in ctl
      && ctl[c + g.objsize].free
      && SlabOk(g, h, hd.(free := ctl[c + g.objsize].link, inuse := hd.inuse + 1), chain[1..],
                ctl[c + g.objsize := Control(h, false)], live + {c})
  {
    hide IsObj;
    var c, rest := chain[0], chain[1..];
    var ctl' := ctl[c + g.objsize := Control(h, false)];
    assert c !in rest;
    forall x ensures x in chain <==> x == c || x in rest {
      assert chain == [c] + rest;
    }
    LinkedFrame(g, ctl, ctl', ctl[c + g.objsize].link, rest);
  }

  /** The objects of a slab as a set, of the size one would think. */
  ghost function Objs(g: Shape, addr: Addr, n: nat): (r: set<Addr>)
    ensures |r| <= n && forall k :: 0 <= k < n ==> ObjAt(g.objsize, addr, k) in r
  {
    if n == 0 then {} else Objs(g, addr, n - 1) + {ObjAt(g.objsize, addr, n - 1)}
  }

  lemma {:induction false} DistinctSize(s: seq<Addr>, t: set<Addr>)
    requires Distinct(s) && forall c :: c in s ==> c in t
    ensures |s| <= |t|
    decreases |s|
  {
    if s != [] {
      var n := |s| - 1;
      assert s[n] in s && forall c :: c in s[..n] ==> c in s;
      DistinctSize(s[..n], t - {s[n]});
    }
  }

  lemma NotAllFree(g: Shape, addr: Addr, chain: seq<Addr>, c: Addr)
    requires Distinct(chain) && (forall x :: x in chain ==> IsObj(g, addr, x)) && IsObj(g, addr, c) && c !in chain
    ensures |chain| < g.nobjs
  {
    DistinctSize(chain, Objs(g, addr, g.nobjs) - {c});
  }

  lemma ObjIsWithin(g: Shape, addr: Addr, c: Addr)
    requires IsObj(g, addr, c)
    ensures addr <= c && c + g.objsize + CTL <= ObjAt(g.objsize, addr, g.nobjs)
  {
    hide ObjAt;
    var k: nat :| k < g.nobjs && c == ObjAt(g.objsize, addr, k);
    ObjAtOrder(g.objsize, addr, k, g.nobjs);
    ObjAtStep(g.objsize, addr, 0);
    if k > 0 {
      ObjAtOrder(g.objsize, addr, 0, k);
    }
  }

  /** Giving back a live object. */
  lemma GiveOk(g: Shape, h: Addr, hd: Header, chain: seq<Addr>, ctl: Ctl, live: set<Addr>, c: Addr)
    requires SlabOk(g, h, hd, chain, ctl, live) && IsObj(g, hd.addr, c) && c in live
    ensures hd.inuse > 0 && c + g.objsize in ctl && ctl[c + g.objsize] == Control(h, false)
    ensures SlabOk(g, h, hd.(free := c, inuse := hd.inuse - 1), [c] + chain,
                   ctl[c + g.objsize := Control(hd.free, true)], live - {c})
  {
    hide IsObj;
    var ctl' := ctl[c + g.objsize := Control(hd.free, true)];
    NotAllFree(g, hd.addr, chain, c);
    assert c != NULL by {
      ObjIsWithin(g, hd.addr, c);
    }
    LinkedFrame(g, ctl, ctl', hd.free, chain);
    assert ([c] + chain)[1..] == chain;
    forall x ensures x in [c] + chain <==> x == c || x in chain {
    }
  }

  // ------------------------------------------------------------------------ all slabs

  ghost predicate Apart(g: Shape, a: Addr, b: Addr) {
    Disjoint(Region(a, g.block), Region(b, g.block))
  }

  /** An object belongs to one slab only. */
  lemma OneSlab(g: Shape, a: Addr, b: Addr, c: Addr)
    requires IsObj(g, a, c) && Apart(g, a, b) && forall x: Addr :: ObjAt(g.objsize, x, g.nobjs) <= x + g.block
    ensures !IsObj(g, b, c)
  {
    hide IsObj, ObjAt;
    ObjIsWithin(g, a, c);
    if IsObj(g, b, c) {
      ObjIsWithin(g, b, c);
    }
  }

  /** All objects of a slab from `k` on, in address order. */
  ghost function From(g: Shape, addr: Addr, k: nat): (r: seq<Addr>)
    requires k <= g.nobjs
    ensures |r| == g.nobjs - k && forall i :: 0 <= i < |r| ==> r[i] == ObjAt(g.objsize, addr, k + i)
    decreases g.nobjs - k
  {
    if k == g.nobjs then [] else [ObjAt(g.objsize, addr, k)] + From(g, addr, k + 1)
  }

  /** Every control word names the object after it, the last one none. */
  ghost predicate Threaded(g: Shape, addr: Addr, ctl: Ctl, n: nat) {
    forall k :: 0 <= k < n ==>
      var w := ObjAt(g.objsize, addr, k) + g.objsize; w in ctl && ctl[w] == Control(NextObj(g, addr, k), true)
  }

  function NextObj(g: Shape, addr: Addr, k: nat): Addr {
    if k + 1 < g.nobjs then ObjAt(g.objsize, addr, k + 1) else NULL
  }

  lemma {:induction false} ThreadedIsLinked(g: Shape, addr: Addr, ctl: Ctl, k: nat)
    requires k < g.nobjs && Threaded(g, addr, ctl, g.nobjs) && addr > 0
    ensures Linked(g, ctl, ObjAt(g.objsize, addr, k), From(g, addr, k))
    decreases g.nobjs - k
  {
    hide ObjAt;
    ObjIsWithin(g, addr, ObjAt(g.objsize, addr, k));
    assert From(g, addr, k)[1..] == From(g, addr, k + 1);
    if k + 1 < g.nobjs {
      ThreadedIsLinked(g, addr, ctl, k + 1);
    }
  }

  lemma FreshOk(g: Shape, addr: Addr, ctl: Ctl, next: Addr, live: set<Addr>)
    requires g.nobjs > 0 && addr > 0 && Threaded(g, addr, ctl, g.nobjs)
    requires forall c: Addr :: IsObj(g, addr, c) ==> c !in live
    ensures SlabOk(g, ObjAt(g.objsize, addr, g.nobjs), Header(next, 0, addr, addr), From(g, addr, 0), ctl, live)
  {
    hide ObjAt, Linked;
    ObjAtStep(g.objsize, addr, 0);
    ThreadedIsLinked(g, addr, ctl, 0);
    var chain := From(g, addr, 0);
    forall i, j | 0 <= i < j < |chain| ensures chain[i] != chain[j] {
      ObjAtOrder(g.objsize, addr, i, j);
    }
    forall c: Addr | IsObj(g, addr, c) ensures c in chain {
      var k: nat :| k < g.nobjs && c == ObjAt(g.objsize, addr, k);
      assert chain[k] == c;
    }
    forall c | c in chain ensures IsObj(g, addr, c) {
      var i: nat :| i < |chain| && chain[i] == c;
    }
  }

  /** The slab structures and control words by address, the list of slabs, and who has which object. */
  datatype State = State(slabs: Addr, headers: map<Addr, Header>, ctl: Ctl, list: seq<Addr>,
                         chains: map<Addr, seq<Addr>>, live: set<Addr>)

  /** A slab of this shape fits its page block. */
  ghost predicate Fits(g: Shape) {
    && g.nobjs > 0 && g.objsize >= 2 * ZONE
    && forall x: Addr :: ObjAt(g.objsize, x, g.nobjs) + HEAD <= x + g.block
  }

  function After(list: seq<Addr>, i: nat): Addr {
    if i + 1 < |list| then list[i + 1] else NULL
  }

  ghost predicate Listed(g: Shape, s: State) {
    && s.slabs == (if s.list == [] then NULL else s.list[0])
    && (forall i :: 0 <= i < |s.list| ==>
         s.list[i] != NULL && s.list[i] in s.headers && s.headers[s.list[i]].next == After(s.list, i))
    && (forall i, j :: 0 <= i < j < |s.list| ==> Apart(g, s.headers[s.list[i]].addr, s.headers[s.list[j]].addr))
  }

  ghost predicate Ok(g: Shape, s: State, h: Addr) {
    h in s.headers && h in s.chains && SlabOk(g, h, s.headers[h], s.chains[h], s.ctl, s.live)
  }

  /** A live object lies in some slab. */
  ghost predicate Housed(g: Shape, s: State, c: Addr) {
    exists i :: 0 <= i < |s.list| && s.list[i] in s.headers && IsObj(g, s.headers[s.list[i]].addr, c)
  }

  ghost predicate Inv(g: Shape, s: State) {
    && Fits(g) && Listed(g, s)
    && (forall i :: 0 <= i < |s.list| ==> Ok(g, s, s.list[i]))
    && (forall c :: c in s.live ==> Housed(g, s, c))
  }

  lemma ApartFrom(g: Shape, s: State, h: Addr, i: nat)
    requires Fits(g) && Listed(g, s) && h in s.list && i < |s.list| && s.list[i] != h
    ensures s.list[i] in s.headers && h in s.headers && Apart(g, s.headers[h].addr, s.headers[s.list[i]].addr)
    ensures forall x: Addr :: ObjAt(g.objsize, x, g.nobjs) <= x + g.block
  {
    var j: nat :| j < |s.list| && s.list[j] == h;
  }

  /** One object of one slab changes hands. */
  function Changed(g: Shape, s: State, h: Addr, hd: Header, chain: seq<Addr>, c: Addr, word: Control,
                   live: set<Addr>): State
  {
    s.(headers := s.headers[h := hd], ctl := s.ctl[c + g.objsize := word], chains := s.chains[h := chain], live := live)
  }

  lemma ListedStill(g: Shape, s: State, h: Addr, hd: Header, s': State)
    requires Listed(g, s) && h in s.list && h in s.headers && hd.next == s.headers[h].next
    requires hd.addr == s.headers[h].addr
    requires s'.headers == s.headers[h := hd] && s'.list == s.list && s'.slabs == s.slabs
    ensures Listed(g, s')
  {
    hide Apart;
    forall i | 0 <= i < |s.list|
      ensures
        && s.list[i] in s'.headers && s'.headers[s.list[i]].addr == s.headers[s.list[i]].addr
        && s'.headers[s.list[i]].next == s.headers[s.list[i]].next
    {
    }
    forall i, j | 0 <= i < j < |s.list| ensures Apart(g, s'.headers[s.list[i]].addr, s'.headers[s.list[j]].addr) {
      assert Apart(g, s.headers[s.list[i]].addr, s.headers[s.list[j]].addr);
    }
  }

  lemma ChangedInv(g: Shape, s: State, h: Addr, hd: Header, chain: seq<Addr>, c: Addr, word: Control, live: set<Addr>)
    requires Inv(g, s) && h in s.list && h in s.headers && hd.next == s.headers[h].next && hd.addr == s.headers[h].addr
    requires IsObj(g, hd.addr, c) && (live == s.live + {c} || live == s.live - {c})
    requires SlabOk(g, h, hd, chain, s.ctl[c + g.objsize := word], live)
    ensures Inv(g, Changed(g, s, h, hd, chain, c, word, live))
  {
    hide SlabOk, IsObj, Fits, Listed;
    var s' := Changed(g, s, h, hd, chain, c, word, live);
    ListedStill(g, s, h, hd, s');
    forall i | 0 <= i < |s.list| ensures Ok(g, s', s'.list[i]) {
      if s.list[i] != h {
        assert Ok(g, s, s.list[i]);
        ApartFrom(g, s, h, i);
        SlabElsewhere(g, s.list[i], s.headers[s.list[i]], s.chains[s.list[i]], s.ctl, s.live, hd.addr, c, word, live);
      }
    }
    forall x | x in live ensures Housed(g, s', x) {
      if x == c {
        var j: nat :| j < |s.list| && s.list[j] == h;
        assert IsObj(g, s'.headers[s'.list[j]].addr, x);
      } else {
        assert Housed(g, s, x);
        var i: nat :| i < |s.list| && s.list[i] in s.headers && IsObj(g, s.headers[s.list[i]].addr, x);
        assert IsObj(g, s'.headers[s'.list[i]].addr, x);
      }
    }
  }

  /** A slab that is not full has a first free object. */
  lemma HasFree(g: Shape, s: State, h: Addr)
    requires Inv(g, s) && h in s.list && h in s.headers && s.headers[h].inuse < g.nobjs
    ensures
      && h in s.chains && s.chains[h] != [] && s.headers[h].free != NULL && s.headers[h].free !in s.live
      && s.headers[h].free + g.objsize in s.ctl
  {
    hide SlabOk, IsObj, Apart, Fits, Listed, Housed;
    assert Ok(g, s, h);
    InUseBound(g, h, s.headers[h], s.chains[h], s.ctl, s.live);
    TakeOk(g, h, s.headers[h], s.chains[h], s.ctl, s.live);
  }

  lemma TakenInv(g: Shape, s: State, h: Addr, hd: Header, c: Addr)
    requires Inv(g, s) && h in s.list && h in s.headers && h in s.chains && s.chains[h] != []
    requires
      && c == s.headers[h].free && c + g.objsize in s.ctl
      && hd == s.headers[h].(free := s.ctl[c + g.objsize].link, inuse := s.headers[h].inuse + 1)
    ensures IsObj(g, hd.addr, c)
    ensures Inv(g, Changed(g, s, h, hd, s.chains[h][1..], c, Control(h, false), s.live + {c}))
  {
    hide SlabOk, IsObj, Apart, Fits, Listed, Housed;
    assert Ok(g, s, h);
    TakeOk(g, h, s.headers[h], s.chains[h], s.ctl, s.live);
    ChangedInv(g, s, h, hd, s.chains[h][1..], c, Control(h, false), s.live + {c});
  }

  /** Of every object of every slab: the flag says whether it is free, and the control word of a live one leads home. */
  lemma FlagTells(g: Shape, s: State, c: Addr)
    requires Inv(g, s) && Housed(g, s, c)
    ensures c + g.objsize in s.ctl && (s.ctl[c + g.objsize].free <==> c !in s.live)
    ensures c in s.live ==>
      var h := s.ctl[c + g.objsize].link;
      && h in s.list && h in s.headers && h in s.chains && s.headers[h].inuse > 0 && IsObj(g, s.headers[h].addr, c)
  {
    hide SlabOk, IsObj, Apart, Fits, Listed;
    var i: nat :| i < |s.list| && s.list[i] in s.headers && IsObj(g, s.headers[s.list[i]].addr, c);
    var h := s.list[i];
    assert Ok(g, s, h);
    if c in s.live {
      GiveOk(g, h, s.headers[h], s.chains[h], s.ctl, s.live, c);
    } else {
      FreeInSlab(g, h, s.headers[h], s.chains[h], s.ctl, s.live, c);
    }
  }

  lemma FreeInSlab(g: Shape, h: Addr, hd: Header, chain: seq<Addr>, ctl: Ctl, live: set<Addr>, c: Addr)
    requires SlabOk(g, h, hd, chain, ctl, live) && IsObj(g, hd.addr, c) && c !in live
    ensures c + g.objsize in ctl && ctl[c + g.objsize].free
  {
    hide IsObj;
    FreeInChain(g, ctl, hd.free, chain, c);
  }

  lemma {:induction false} FreeInChain(g: Shape, ctl: Ctl, p: Addr, chain: seq<Addr>, c: Addr)
    requires Linked(g, ctl, p, chain) && c in chain
    ensures c + g.objsize in ctl && ctl[c + g.objsize].free
    decreases |chain|
  {
    if c != chain[0] {
      FreeInChain(g, ctl, ctl[p + g.objsize].link, chain[1..], c);
    }
  }

  lemma GivenInv(g: Shape, s: State, h: Addr, hd: Header, c: Addr)
    requires Inv(g, s) && c in s.live && h in s.list && h in s.headers && h in s.chains
    requires IsObj(g, s.headers[h].addr, c)
    requires s.headers[h].inuse > 0 && hd == s.headers[h].(free := c, inuse := s.headers[h].inuse - 1)
    ensures Inv(g, Changed(g, s, h, hd, [c] + s.chains[h], c, Control(s.headers[h].free, true), s.live - {c}))
  {
    hide SlabOk, IsObj, Apart, Fits, Listed, Housed;
    assert Ok(g, s, h);
    GiveOk(g, h, s.headers[h], s.chains[h], s.ctl, s.live, c);
    ChangedInv(g, s, h, hd, [c] + s.chains[h], c, Control(s.headers[h].free, true), s.live - {c});
  }

  /** A new slab in front of the list, in a block of its own. */
  function Grown(g: Shape, s: State, addr: Addr, ctl: Ctl, chain: seq<Addr>): State {
    var h := ObjAt(g.objsize, addr, g.nobjs);
    State(h, s.headers[h := Header(s.slabs, 0, addr, addr)], ctl, [h] + s.list, s.chains[h := chain], s.live)
  }

  /** No slab's block overlaps this one. */
  ghost predicate Fresh(g: Shape, s: State, addr: Addr) {
    addr > 0 && forall i :: 0 <= i < |s.list| && s.list[i] in s.headers ==> Apart(g, s.headers[s.list[i]].addr, addr)
  }

  lemma GrownInv(g: Shape, s: State, addr: Addr, ctl: Ctl)
    requires Inv(g, s) && Fresh(g, s, addr) && Threaded(g, addr, ctl, g.nobjs)
    requires forall w :: w in s.ctl && !(addr <= w < addr + g.block) ==> w in ctl && ctl[w] == s.ctl[w]
    ensures Inv(g, Grown(g, s, addr, ctl, From(g, addr, 0)))
  {
    hide SlabOk, IsObj, Apart, Fits, Threaded, From, Listed, Housed, Fresh, ObjAt;
    var s' := Grown(g, s, addr, ctl, From(g, addr, 0));
    forall i: nat | i < |s.list| ensures s.list[i] != s'.slabs && s.list[i] in s.headers && s.list[i] in s.chains
      && SlabOk(g, s.list[i], s.headers[s.list[i]], s.chains[s.list[i]], ctl, s.live) {
      GrownOther(g, s, addr, ctl, i);
    }
    FreshIs(g, s, addr);
    forall c | c in s.live ensures !IsObj(g, addr, c) && Housed(g, s', c) {
      GrownHoused(g, s, addr, s', c);
    }
    HeaderIsThere(g, addr);
    FreshOk(g, addr, ctl, s.slabs, s.live);
    GrownListed(g, s, addr, s');
    forall i | 0 <= i < |s'.list| ensures Ok(g, s', s'.list[i]) {
      if i > 0 {
        assert s'.list[i] == s.list[i - 1];
      }
    }
  }

  lemma GrownOther(g: Shape, s: State, addr: Addr, ctl: Ctl, i: nat)
    requires Inv(g, s) && Fresh(g, s, addr) && i < |s.list|
    requires forall w :: w in s.ctl && !(addr <= w < addr + g.block) ==> w in ctl && ctl[w] == s.ctl[w]
    ensures s.list[i] != ObjAt(g.objsize, addr, g.nobjs) && s.list[i] in s.headers && s.list[i] in s.chains
    ensures SlabOk(g, s.list[i], s.headers[s.list[i]], s.chains[s.list[i]], ctl, s.live)
  {
    hide SlabOk, IsObj, Apart, Fits, Listed, Housed, ObjAt;
    assert Ok(g, s, s.list[i]);
    SlabBeside(g, s.list[i], s.headers[s.list[i]], s.chains[s.list[i]], s.ctl, s.live, addr, ctl);
  }

  lemma GrownHoused(g: Shape, s: State, addr: Addr, s': State, c: Addr)
    requires Fits(g) && Housed(g, s, c) && Fresh(g, s, addr) && s'.list == [s'.slabs] + s.list && addr > 0
    requires forall i ::
      0 <= i < |s.list| ==>
        s.list[i] in s.headers && s.list[i] in s'.headers && s'.headers[s.list[i]] == s.headers[s.list[i]]
    ensures !IsObj(g, addr, c) && Housed(g, s', c)
  {
    hide IsObj, Apart, Fits;
    var i: nat :| i < |s.list| && s.list[i] in s.headers && IsObj(g, s.headers[s.list[i]].addr, c);
    assert s'.list[i + 1] == s.list[i];
    HousedApart(g, s.headers[s.list[i]].addr, addr, c);
  }

  lemma FreshIs(g: Shape, s: State, addr: Addr)
    requires Fresh(g, s, addr)
    ensures addr > 0
  {
  }

  lemma HeaderIsThere(g: Shape, addr: Addr)
    requires Fits(g) && addr > 0
    ensures ObjAt(g.objsize, addr, g.nobjs) > 0 && g.nobjs > 0
  {
  }

  lemma HousedApart(g: Shape, a: Addr, b: Addr, c: Addr)
    requires Fits(g) && Apart(g, a, b) && IsObj(g, a, c)
    ensures !IsObj(g, b, c)
  {
    hide IsObj, ObjAt, Apart;
    OneSlab(g, a, b, c);
  }

  lemma SlabBeside(g: Shape, h: Addr, hd: Header, chain: seq<Addr>, ctl: Ctl, live: set<Addr>, addr: Addr, ctl': Ctl)
    requires SlabOk(g, h, hd, chain, ctl, live) && Fits(g) && Apart(g, hd.addr, addr)
    requires forall w :: w in ctl && !(addr <= w < addr + g.block) ==> w in ctl' && ctl'[w] == ctl[w]
    ensures SlabOk(g, h, hd, chain, ctl', live) && h != ObjAt(g.objsize, addr, g.nobjs)
  {
    hide ObjAt, IsObj;
    assert ObjAt(g.objsize, hd.addr, g.nobjs) + HEAD <= hd.addr + g.block;
    assert ObjAt(g.objsize, addr, g.nobjs) + HEAD <= addr + g.block;
    StartsAt(g, hd.addr);
    StartsAt(g, addr);
    forall c: Addr | IsObj(g, hd.addr, c) ensures !(addr <= c + g.objsize < addr + g.block) {
      ObjIsWithin(g, hd.addr, c);
    }
    SlabFrame(g, h, hd, chain, ctl, live, ctl', live);
  }

  lemma StartsAt(g: Shape, addr: Addr)
    ensures addr <= ObjAt(g.objsize, addr, g.nobjs)
  {
  }

  lemma GrownListed(g: Shape, s: State, addr: Addr, s': State)
    requires Listed(g, s) && Fresh(g, s, addr) && s' == Grown(g, s, addr, s'.ctl, From(g, addr, 0)) && s'.slabs > 0
    requires forall i :: 0 <= i < |s.list| ==> s.list[i] != s'.slabs
    ensures Listed(g, s')
  {
    hide ObjAt, Apart;
    forall i | 0 <= i < |s'.list|
      ensures s'.list[i] != NULL && s'.list[i] in s'.headers && s'.headers[s'.list[i]].next == After(s'.list, i)
    {
      if i > 0 {
        assert s'.list[i] == s.list[i - 1] && s.headers[s.list[i - 1]].next == After(s.list, i - 1);
      }
    }
    forall i, j | 0 <= i < j < |s'.list| ensures Apart(g, s'.headers[s'.list[i]].addr, s'.headers[s'.list[j]].addr) {
      assert s'.list[j] == s.list[j - 1];
      if i > 0 {
        assert s'.list[i] == s.list[i - 1];
      } else {
        ApartTurned(g, s.headers[s.list[j - 1]].addr, addr);
      }
    }
  }

  lemma ApartTurned(g: Shape, a: Addr, b: Addr)
    ensures Apart(g, a, b) == Apart(g, b, a)
  {
  }

  /** Two objects never overlap, their red zones and control words included. */
  lemma ObjsApart(g: Shape, s: State, c: Addr, d: Addr)
    requires Inv(g, s) && Housed(g, s, c) && Housed(g, s, d) && c != d
    ensures Disjoint(Region(c, g.objsize + CTL), Region(d, g.objsize + CTL))
  {
    hide SlabOk, ObjAt, Listed;
    var i: nat :| i < |s.list| && s.list[i] in s.headers && IsObj(g, s.headers[s.list[i]].addr, c);
    var j: nat :| j < |s.list| && s.list[j] in s.headers && IsObj(g, s.headers[s.list[j]].addr, d);
    ObjIsWithin(g, s.headers[s.list[i]].addr, c);
    ObjIsWithin(g, s.headers[s.list[j]].addr, d);
    if s.list[i] == s.list[j] {
      SameSlabApart(g, s.headers[s.list[i]].addr, c, d);
    } else {
      ApartFrom(g, s, s.list[i], j);
    }
  }

  /** Nor does an object overlap a slab structure. */
  lemma HeadersApart(g: Shape, s: State, c: Addr, j: nat)
    requires Inv(g, s) && Housed(g, s, c) && j < |s.list|
    ensures Disjoint(Region(c, g.objsize + CTL), Region(s.list[j], HEAD))
  {
    hide ObjAt, Listed;
    var i: nat :| i < |s.list| && s.list[i] in s.headers && IsObj(g, s.headers[s.list[i]].addr, c);
    assert Ok(g, s, s.list[i]) && Ok(g, s, s.list[j]);
    ObjIsWithin(g, s.headers[s.list[i]].addr, c);
    if s.list[i] != s.list[j] {
      ApartFrom(g, s, s.list[i], j);
      StartsAt(g, s.headers[s.list[j]].addr);
      assert ObjAt(g.objsize, s.headers[s.list[j]].addr, g.nobjs) + HEAD <= s.headers[s.list[j]].addr + g.block;
    }
  }

  /** What the holder of an object may write: the bytes between its red zones. */
  function Body(g: Shape, c: Addr): Region
    requires g.objsize >= 2 * ZONE
  {
    Region(c + ZONE, g.objsize - 2 * ZONE)
  }

  /** The last word of an object. */
  function Rear(g: Shape, c: Addr): Addr
    requires g.objsize >= ZONE
  {
    c + g.objsize - ZONE
  }

  /** Writing there touches no other object's body, no red zone, no control word and no slab structure. */
  lemma BodiesApart(g: Shape, s: State, c: Addr, d: Addr, j: nat)
    requires Inv(g, s) && Housed(g, s, c) && Housed(g, s, d) && j < |s.list|
    ensures g.objsize >= 2 * ZONE && (c != d ==> Disjoint(Body(g, c), Body(g, d)))
    ensures Disjoint(Body(g, c), Region(d, ZONE)) && Disjoint(Body(g, c), Region(Rear(g, d), ZONE))
    ensures Disjoint(Body(g, c), Region(d + g.objsize, CTL)) && Disjoint(Body(g, c), Region(s.list[j], HEAD))
  {
    hide SlabOk, ObjAt, Listed, Housed;
    HeadersApart(g, s, c, j);
    if c != d {
      ObjsApart(g, s, c, d);
    }
  }

  lemma SameSlabApart(g: Shape, addr: Addr, c: Addr, d: Addr)
    requires IsObj(g, addr, c) && IsObj(g, addr, d) && c != d
    ensures Disjoint(Region(c, g.objsize + CTL), Region(d, g.objsize + CTL))
  {
    hide ObjAt;
    var j: nat :| j < g.nobjs && c == ObjAt(g.objsize, addr, j);
    var k: nat :| k < g.nobjs && d == ObjAt(g.objsize, addr, k);
    if j < k {
      ObjAtOrder(g.objsize, addr, j, k);
    } else {
      ObjAtOrder(g.objsize, addr, k, j);
    }
  }

  lemma InUseBound(g: Shape, h: Addr, hd: Header, chain: seq<Addr>, ctl: Ctl, live: set<Addr>)
    requires SlabOk(g, h, hd, chain, ctl, live)
    ensures hd.inuse <= g.nobjs && (hd.inuse < g.nobjs <==> chain != [])
  {
  }

  lemma SlabElsewhere(g: Shape, h: Addr, hd: Header, chain: seq<Addr>, ctl: Ctl, live: set<Addr>, addr: Addr, c: Addr,
                      x: Control, live': set<Addr>)
    requires
      && SlabOk(g, h, hd, chain, ctl, live) && IsObj(g, addr, c) && Apart(g, addr, hd.addr)
      && (live' == live + {c} || live' == live - {c})
    requires forall x: Addr :: ObjAt(g.objsize, x, g.nobjs) <= x + g.block
    ensures SlabOk(g, h, hd, chain, ctl[c + g.objsize := x], live')
  {
    hide IsObj, SlabOk, Apart, ObjAt;
    OneSlab(g, addr, hd.addr, c);
    SlabFrame(g, h, hd, chain, ctl, live, ctl[c + g.objsize := x], live');
  }

  // ------------------------------------------------------------------------ red zones

  /** The words in the red zones, by address. */
  type Zones = map<Addr, nat>

  /** Both red zones of an object are as they were set. */
  predicate Intact(g: Shape, zones: Zones, c: Addr)
    requires g.objsize >= ZONE
  {
    c in zones && zones[c] == RED_ZONE && Rear(g, c) in zones && zones[Rear(g, c)] == RED_ZONE
  }

  /** Those of all objects of all slabs are. */
  ghost predicate Whole(g: Shape, s: State, zones: Zones) {
    g.objsize >= ZONE && forall c: Addr :: Housed(g, s, c) ==> Intact(g, zones, c)
  }

  ghost predicate ZonesSet(g: Shape, addr: Addr, zones: Zones, n: nat) {
    g.objsize >= ZONE && forall k :: 0 <= k < n ==> Intact(g, zones, ObjAt(g.objsize, addr, k))
  }

  lemma ZonesNone(g: Shape, addr: Addr, zones: Zones)
    requires g.objsize >= ZONE
    ensures ZonesSet(g, addr, zones, 0)
  {
  }

  /** One more object; its zones lie inside the block and are none of the earlier ones. */
  lemma ZonesOne(g: Shape, addr: Addr, zones: Zones, i: nat)
    requires Fits(g) && i < g.nobjs && ZonesSet(g, addr, zones, i)
    ensures var c := ObjAt(g.objsize, addr, i);
      && addr <= c && Rear(g, c) < addr + g.block
      && ZonesSet(g, addr, zones[c := RED_ZONE][Rear(g, c) := RED_ZONE], i + 1)
  {
    hide ObjAt;
    ObjIsWithin(g, addr, ObjAt(g.objsize, addr, i));
    assert ObjAt(g.objsize, addr, g.nobjs) + HEAD <= addr + g.block;
  }

  lemma WholeNone(g: Shape, s: State, zones: Zones)
    requires g.objsize >= ZONE && s.list == []
    ensures Whole(g, s, zones)
  {
  }

  /** The zones of the slabs there were are not those of a new one. */
  lemma WholeGrown(g: Shape, s: State, s': State, addr: Addr, zones: Zones, zones': Zones)
    requires Inv(g, s) && Fresh(g, s, addr) && s'.list == [s'.slabs] + s.list && s'.slabs in s'.headers
    requires s'.headers[s'.slabs].addr == addr && ZonesSet(g, addr, zones', g.nobjs)
    requires forall i :: 0 <= i < |s.list| ==>
      s.list[i] in s.headers && s.list[i] in s'.headers && s'.headers[s.list[i]] == s.headers[s.list[i]]
    requires ZonesBeside(g, addr, zones, zones') && Whole(g, s, zones)
    ensures Whole(g, s', zones')
  {
    hide SlabOk, ObjAt, Listed;
    forall c: Addr | Housed(g, s', c) ensures Intact(g, zones', c) {
      var i: nat :| i < |s'.list| && s'.list[i] in s'.headers && IsObj(g, s'.headers[s'.list[i]].addr, c);
      if i == 0 {
        var k: nat :| k < g.nobjs && c == ObjAt(g.objsize, addr, k);
      } else {
        assert s'.list[i] == s.list[i - 1] && Housed(g, s, c);
        ObjIsWithin(g, s.headers[s.list[i - 1]].addr, c);
        var addr := s.headers[s.list[i - 1]].addr;
        assert ObjAt(g.objsize, addr, g.nobjs) + HEAD <= addr + g.block;
      }
    }
  }

  /** A change of one slab that keeps its place keeps all objects where they are. */
  lemma HousedStill(g: Shape, s: State, s': State, c: Addr)
    requires s'.list == s.list
    requires forall h :: h in s.headers ==> h in s'.headers && s'.headers[h].addr == s.headers[h].addr
    requires forall h :: h in s'.headers ==> h in s.headers
    ensures Housed(g, s', c) <==> Housed(g, s, c)
  {
    hide IsObj;
    if Housed(g, s, c) {
      var i: nat :| i < |s.list| && s.list[i] in s.headers && IsObj(g, s.headers[s.list[i]].addr, c);
      assert IsObj(g, s'.headers[s'.list[i]].addr, c);
    }
    if Housed(g, s', c) {
      var i: nat :| i < |s.list| && s.list[i] in s'.headers && IsObj(g, s'.headers[s.list[i]].addr, c);
      assert IsObj(g, s.headers[s.list[i]].addr, c);
    }
  }

  /** The first slab of the list that has a free object is the one at `i`. */
  ghost predicate FirstRoom(g: Shape, s: State, i: nat) {
    && i < |s.list| && s.list[i] in s.headers && s.headers[s.list[i]].inuse < g.nobjs
    && forall j :: 0 <= j < i ==> s.list[j] in s.headers && s.headers[s.list[j]].inuse == g.nobjs
  }

  /** Red zones outside the block at `addr` are as they were. */
  ghost predicate ZonesBeside(g: Shape, addr: Addr, zones: Zones, zones': Zones) {
    forall w :: w in zones && !(addr <= w < addr + g.block) ==> w in zones' && zones'[w] == zones[w]
  }

  /** An empty slab on the block at `addr` came in front, with its red zones set, and nothing else changed. */
  ghost predicate Grew(g: Shape, s: State, zones: Zones, s': State, zones': Zones, addr: Addr) {
    && s'.list == [s'.slabs] + s.list && s'.slabs != NULL && s'.slabs !in s.list
    && s'.headers == s.headers[s'.slabs := Header(s.slabs, 0, addr, addr)] && s'.live == s.live
    && ZonesSet(g, addr, zones', g.nobjs) && ZonesBeside(g, addr, zones, zones')
  }

  /** Slabs lie where they lay. */
  ghost predicate SamePlaces(s: State, s': State) {
    forall h :: h in s.headers ==> h in s'.headers && s'.headers[h].addr == s.headers[h].addr
  }

  /** The object `c` was the first free one of the slab at `i`; `ok` says whether its red zones were intact. */
  ghost predicate FromOld(g: Shape, s: State, zones: Zones, s': State, zones': Zones, i: nat, c: Addr, ok: bool) {
    && FirstRoom(g, s, i) && c == s.headers[s.list[i]].free && s'.list == s.list && zones' == zones
    && SamePlaces(s, s') && g.objsize >= ZONE && (ok <==> Intact(g, zones, c))
  }

  /** The object `c` is the first one of a new slab on the block at `addr`, whose red zones are intact. */
  ghost predicate FromNew(g: Shape, s: State, zones: Zones, s': State, zones': Zones, addr: Addr, c: Addr, ok: bool) {
    && c == addr && ok && s'.list == [s'.slabs] + s.list && s'.slabs !in s.list
    && s'.slabs in s'.headers && s'.headers[s'.slabs].addr == addr
    && (forall h :: h in s.list && h in s.headers ==> h in s'.headers && s'.headers[h].addr == s.headers[h].addr)
    && ZonesSet(g, addr, zones', g.nobjs) && ZonesBeside(g, addr, zones, zones')
  }

  /** The object `c` is the first free one of a slab that has one object less in use. */
  ghost predicate GaveBack(s: State, s': State, c: Addr) {
    exists h :: h in s.list && h in s.headers && s.headers[h].inuse > 0
                && s'.headers == s.headers[h := s.headers[h].(free := c, inuse := s.headers[h].inuse - 1)]
  }

  lemma OneFirst(g: Shape, s: State, i: nat, j: nat)
    requires FirstRoom(g, s, i) && FirstRoom(g, s, j)
    ensures i == j
  {
  }

  lemma GrownHasRoom(g: Shape, s: State, zones: Zones, s': State, zones': Zones, addr: Addr, i: nat)
    requires Grew(g, s, zones, s', zones', addr) && g.nobjs > 0 && FirstRoom(g, s', i)
    ensures i == 0 && s'.headers[s'.list[i]].free == addr && Intact(g, zones', addr)
  {
    assert s'.list[0] == s'.slabs;
    assert ObjAt(g.objsize, addr, 0) == addr;
  }

  // ------------------------------------------------------------------------ the allocator

  /** How a call of `slab_obj_free` ends: done, or in one of the two panics. */
  datatype Outcome = Done | ZoneBroken | InvalidFree

  class Cache {
    const g: Shape
    const order: nat
    /** Head of the list of slabs, the slab structures, the control words and the red zones, all by address. */
    var slabs: Addr
    var headers: map<Addr, Header>
    var ctl: Ctl
    var zones: Zones
    ghost var list: seq<Addr>
    ghost var chains: map<Addr, seq<Addr>>
    /** Where the live objects start, with their red zones. */
    ghost var live: set<Addr>

    ghost function Now(): State
      reads this
    {
      State(slabs, headers, ctl, list, chains, live)
    }

    ghost predicate Valid()
      reads this
    {
      g.block == BlockSize(order) && Inv(g, Now())
    }

    /** Nobody has written into a red zone. */
    ghost predicate Clean()
      reads this
    {
      Whole(g, Now(), zones)
    }

    /** A new allocator has no slab; the object sizes that the kernel panics on are excluded. */
    constructor (size: nat)
      requires SlabSize(WithZones(size), 1) <= BlockSize(PAGE_NSIZES - 1)
      ensures Valid() && Clean() && live == {} && list == [] && g.objsize == WithZones(size)
      ensures exists least: nat :: IsLeast(g.objsize, least) && IsBest(g.objsize, least, order)
    {
      var objsize := WithZones(size);
      var ok, o, n := CalcSlabSize(objsize);
      order := o;
      g := Shape(objsize, n, BlockSize(o));
      slabs, headers, ctl, zones := NULL, map[], map[], map[];
      list, chains, live := [], map[], {};
      new;
      ShapeFits(objsize, o);
      WholeNone(g, Now(), zones);
    }

    /** The first slab with a free object, or NULL. */
    method FindSlab() returns (slab: Addr, ghost i: nat)
      requires Valid()
      ensures forall j :: 0 <= j < |list| ==> list[j] in headers
      ensures slab == NULL ==> forall j :: 0 <= j < |list| ==> headers[list[j]].inuse == g.nobjs
      ensures slab != NULL ==> FirstRoom(g, Now(), i) && slab == list[i]
    {
      hide SlabOk, Fits, BlockSize, Housed, Apart;
      slab, i := slabs, 0;
      while slab != NULL && headers[slab].inuse == g.nobjs
        invariant 0 <= i <= |list| && slab == if i < |list| then list[i] else NULL
        invariant forall j :: 0 <= j < i ==> headers[list[j]].inuse == g.nobjs
        decreases |list| - i
      {
        assert headers[list[i]].next == After(list, i);
        slab := headers[slab].next;
        i := i + 1;
      }
      if slab != NULL {
        assert Ok(g, Now(), list[i]);
        InUseBound(g, slab, headers[slab], chains[slab], ctl, live);
      }
    }

    /** Threads the control words of a new block; `page` is what the page allocator returned. */
    method Thread(page: Addr) returns (slab: Addr)
      requires Fits(g) && page > 0 && g.block == BlockSize(order)
      modifies this`ctl
      ensures Threaded(g, page, ctl, g.nobjs) && slab == ObjAt(g.objsize, page, g.nobjs)
      ensures forall w :: w in old(ctl) && !(page <= w < page + g.block) ==> w in ctl && ctl[w] == old(ctl)[w]
    {
      hide Fits, BlockSize, ObjAt, Threaded;
      var obj, i := page, 0;
      HeaderIsThere(g, page);
      ObjAtStep(g.objsize, page, 0);
      ThreadNone(g, page, ctl);
      while i < g.nobjs - 1
        invariant 0 <= i < g.nobjs && obj == ObjAt(g.objsize, page, i) && Threaded(g, page, ctl, i)
        invariant forall w :: w in old(ctl) && !(page <= w < page + g.block) ==> w in ctl && ctl[w] == old(ctl)[w]
      {
        ObjAtStep(g.objsize, page, i);
        ThreadOne(g, page, ctl, i);
        ctl := ctl[obj + g.objsize := Control(obj + g.objsize + CTL, true)];
        obj := ctl[obj + g.objsize].link;
        i := i + 1;
      }
      ObjAtStep(g.objsize, page, i);
      ThreadOne(g, page, ctl, i);
      ctl := ctl[obj + g.objsize := Control(NULL, true)];
      slab := obj + g.objsize + CTL;
    }

    /** Sets the red zones of a new block. */
    method SetZones(page: Addr)
      requires Fits(g) && page > 0
      modifies this`zones
      ensures ZonesSet(g, page, zones, g.nobjs)
      ensures ZonesBeside(g, page, old(zones), zones)
    {
      hide ObjAt, ZonesSet;
      var obj, i := page, 0;
      ObjAtStep(g.objsize, page, 0);
      ZonesNone(g, page, zones);
      while i < g.nobjs
        invariant 0 <= i <= g.nobjs && obj == ObjAt(g.objsize, page, i) && ZonesSet(g, page, zones, i)
        invariant ZonesBeside(g, page, old(zones), zones)
      {
        ObjAtStep(g.objsize, page, i);
        ZonesOne(g, page, zones, i);
        zones := zones[obj := RED_ZONE];
        zones := zones[Rear(g, obj) := RED_ZONE];
        obj := obj + g.objsize + CTL;
        i := i + 1;
      }
    }

    /** Adds a slab in front of the list, unless there is no page block. */
    method Grow(page: Addr) returns (ok: bool)
      requires Valid() && (page != NULL ==> Fresh(g, Now(), page))
      modifies this
      ensures ok <==> page != NULL
      ensures !ok ==> unchanged(this)
      ensures ok ==> Grew(g, old(Now()), old(zones), Now(), zones, page)
      ensures old(Clean()) ==> Clean()
      ensures Valid()
    {
      hide Fits, BlockSize, ObjAt, Threaded, From, Fresh, Listed, SlabOk, Housed, Whole, ZonesSet;
      if page == NULL {
        return false;
      }
      ghost var s, z := Now(), zones;
      var slab := Thread(page);
      HeaderIsThere(g, page);
      GrownInv(g, s, page, ctl);
      SetZones(page);
      headers := headers[slab := Header(slabs, 0, page, page)];
      slabs := slab;
      list := [slab] + list;
      chains := chains[slab := From(g, page, 0)];
      ok := true;
      GrownKeeps(g, s, page, ctl);
      if Whole(g, s, z) {
        WholeGrown(g, s, Now(), page, z, zones);
      }
    }

    /** `VERIFY_REDZONES`; false where the kernel panics. */
    method CheckZones(obj: Addr) returns (ok: bool)
      requires g.objsize >= 2 * ZONE
      ensures ok <==> Intact(g, zones, obj)
    {
      if !(obj in zones && zones[obj] == RED_ZONE) {
        return false;
      }
      var rear := obj + g.objsize - ZONE;
      ok := rear in zones && zones[rear] == RED_ZONE;
    }

    /** Takes an object from a slab that has one. */
    method Take(slab: Addr) returns (obj: Addr)
      requires Valid() && slab in list && slab in headers && headers[slab].inuse < g.nobjs
      modifies this`headers, this`ctl, this`chains, this`live
      ensures obj != NULL && obj !in old(live) && live == old(live) + {obj} && obj == old(headers)[slab].free
      ensures forall c: Addr :: Housed(g, Now(), c) <==> old(Housed(g, Now(), c))
      ensures SamePlaces(old(Now()), Now()) && Valid() && Housed(g, Now(), obj)
    {
      hide Inv, BlockSize, IsObj, Housed;
      HasFree(g, Now(), slab);
      obj := headers[slab].free;
      var hd := headers[slab].(free := ctl[obj + g.objsize].link, inuse := headers[slab].inuse + 1);
      TakenInv(g, Now(), slab, hd, obj);
      ghost var s := Now();
      headers := headers[slab := hd];
      ctl := ctl[obj + g.objsize := Control(slab, false)];
      chains := chains[slab := chains[slab][1..]];
      live := live + {obj};
      LiveHoused(g, Now(), obj);
      forall c: Addr ensures Housed(g, Now(), c) <==> Housed(g, s, c) {
        HousedStill(g, s, Now(), c);
      }
    }

    /**
     * A pointer behind the front zone of an object that nobody has; NULL just when every slab is full and
     * there is no page block.  It comes from the first slab with a free object, or from a new slab if there is
     * none.  `ok` is false where the kernel panics: just when a red zone of that object had been written into.
     */
    method ObjAlloc(page: Addr) returns (ok: bool, obj: Addr)
      requires Valid() && (page != NULL ==> Fresh(g, Now(), page))
      modifies this
      ensures forall i :: 0 <= i < |old(list)| ==> old(list)[i] in old(headers)
      ensures obj == NULL
        <==> page == NULL && forall i :: 0 <= i < |old(list)| ==> old(headers)[old(list)[i]].inuse == g.nobjs
      ensures obj == NULL ==> ok && unchanged(this)
      ensures obj != NULL ==>
        && obj > ZONE && obj - ZONE !in old(live) && live == old(live) + {obj - ZONE} && Housed(g, Now(), obj - ZONE)
      ensures obj != NULL ==>
        && (forall i :: FirstRoom(g, old(Now()), i) ==>
              FromOld(g, old(Now()), old(zones), Now(), zones, i, obj - ZONE, ok))
        && ((forall i :: !FirstRoom(g, old(Now()), i)) ==>
              FromNew(g, old(Now()), old(zones), Now(), zones, page, obj - ZONE, ok))
      ensures old(Clean()) ==> ok && Clean()
      ensures Valid()
    {
      hide Inv, BlockSize, Fresh, Whole, Housed, ZonesSet, ZonesBeside, Intact;
      var slab, i := FindSlab();
      ghost var s0, z0 := Now(), zones;
      while slab == NULL
        invariant Valid() && forall j :: 0 <= j < |list| ==> list[j] in headers
        invariant slab == NULL ==> unchanged(this) && forall j :: 0 <= j < |list| ==> headers[list[j]].inuse == g.nobjs
        invariant slab != NULL ==> FirstRoom(g, Now(), i) && slab == list[i]
        invariant slab != NULL ==>
          || (Now() == s0 && zones == z0)
          || (page != NULL && Grew(g, s0, z0, Now(), zones, page) && forall k :: !FirstRoom(g, s0, k))
        invariant old(Clean()) ==> Clean()
        decreases slab == NULL
      {
        var grown := Grow(page);
        if !grown {
          return true, NULL;
        }
        assert list[0] == slabs;
        HeaderCount();
        slab, i := FindSlab();
      }
      HeaderCount();
      ghost var s := Now();
      obj := Take(slab);
      WholeStill(g, s, Now(), zones);
      ok := CheckZones(obj);
      WholeMeans(g, Now(), zones, obj);
      if s == s0 {
        forall j | FirstRoom(g, s0, j) ensures j == i {
          OneFirst(g, s0, i, j);
        }
      } else {
        GrownHasRoom(g, s0, z0, s, zones, page, i);
      }
      obj := obj + ZONE;
    }

    lemma HeaderCount()
      requires Valid()
      ensures g.nobjs > 0 && g.objsize >= 2 * ZONE
    {
    }

    /**
     * Gives an object back to the slab that its control word names; `obj` is a pointer behind the front zone of
     * any object of the cache.  The assertion on its free flag holds if and only if the object is live.
     */
    method ObjFree(obj: Addr) returns (r: Outcome)
      requires Valid() && obj >= ZONE && Housed(g, Now(), obj - ZONE)
      modifies this`headers, this`ctl, this`chains, this`live
      ensures g.objsize >= ZONE && (r == ZoneBroken <==> !Intact(g, zones, obj - ZONE))
      ensures r == InvalidFree <==> Intact(g, zones, obj - ZONE) && obj - ZONE !in old(live)
      ensures r == Done ==> live == old(live) - {obj - ZONE} && GaveBack(old(Now()), Now(), obj - ZONE)
      ensures r != Done ==> unchanged(this)
      ensures forall c: Addr :: Housed(g, Now(), c) <==> old(Housed(g, Now(), c))
      ensures old(Clean()) ==> r != ZoneBroken && Clean()
      ensures Valid()
    {
      hide Inv, BlockSize, IsObj, Housed, Whole;
      HeaderCount();
      var c: Addr := obj - ZONE;
      WholeMeans(g, Now(), zones, c);
      var ok := CheckZones(c);
      if !ok {
        return ZoneBroken;
      }
      FlagTells(g, Now(), c);
      if ctl[c + g.objsize].free {
        return InvalidFree;
      }
      var slab := ctl[c + g.objsize].link;
      var hd := headers[slab].(free := c, inuse := headers[slab].inuse - 1);
      GivenInv(g, Now(), slab, hd, c);
      ghost var s := Now();
      ctl := ctl[c + g.objsize := Control(headers[slab].free, true)];
      headers := headers[slab := hd];
      chains := chains[slab := [c] + chains[slab]];
      live := live - {c};
      forall x: Addr ensures Housed(g, Now(), x) <==> Housed(g, s, x) {
        HousedStill(g, s, Now(), x);
      }
      WholeStill(g, s, Now(), zones);
      assert GaveBack(s, Now(), c);
      r := Done;
    }

    /** Somebody writes past the end of an object, or before its start. */
    method Overrun(w: Addr, v: nat)
      requires Valid()
      modifies this`zones
      ensures zones == old(zones)[w := v] && Valid()
    {
      zones := zones[w := v];
    }
  }

  lemma LiveHoused(g: Shape, s: State, c: Addr)
    requires Inv(g, s) && c in s.live
    ensures Housed(g, s, c)
  {
  }

  lemma WholeStill(g: Shape, s: State, s': State, zones: Zones)
    requires forall c: Addr :: Housed(g, s', c) <==> Housed(g, s, c)
    ensures Whole(g, s, zones) ==> Whole(g, s', zones)
  {
    hide Housed;
  }

  lemma WholeMeans(g: Shape, s: State, zones: Zones, c: Addr)
    requires Housed(g, s, c) && g.objsize >= ZONE
    ensures Whole(g, s, zones) ==> Intact(g, zones, c)
  {
    hide Housed;
  }

  lemma GrownKeeps(g: Shape, s: State, addr: Addr, ctl: Ctl)
    requires Inv(g, s) && Fresh(g, s, addr)
    requires forall w :: w in s.ctl && !(addr <= w < addr + g.block) ==> w in ctl && ctl[w] == s.ctl[w]
    ensures forall i :: 0 <= i < |s.list| ==> s.list[i] in s.headers && s.list[i] != ObjAt(g.objsize, addr, g.nobjs)
  {
    hide SlabOk, Fits, Listed, Housed, ObjAt, Fresh;
    forall i: nat | i < |s.list| ensures s.list[i] in s.headers && s.list[i] != ObjAt(g.objsize, addr, g.nobjs) {
      GrownOther(g, s, addr, ctl, i);
    }
  }

  /** A second free of an object, and one of an object whose end was written over: both are caught. */
  method CaughtTwice(size: nat, page: Addr) returns (first: Outcome, second: Outcome, third: Outcome)
    requires SlabSize(WithZones(size), 1) <= BlockSize(PAGE_NSIZES - 1) && page > 0
    ensures first == Done && second == InvalidFree && third == ZoneBroken
  {
    hide Inv, BlockSize, Housed, Whole, IsBest;
    var m := new Cache(size);
    var ok, obj := m.ObjAlloc(page);
    m.HeaderCount();
    WholeMeans(m.g, m.Now(), m.zones, obj - ZONE);
    first := m.ObjFree(obj);
    second := m.ObjFree(obj);
    m.Overrun(Rear(m.g, obj - ZONE), 0);
    third := m.ObjFree(obj);
  }

  /** An object whose end is written over after it was freed: the next allocation panics. */
  method CaughtAtAlloc(size: nat, page: Addr) returns (ok: bool)
    requires SlabSize(WithZones(size), 1) <= BlockSize(PAGE_NSIZES - 1) && page > 0
    ensures !ok
  {
    hide Inv, BlockSize, Housed, Whole, IsBest, ZonesSet, ZonesBeside;
    var m := new Cache(size);
    var obj;
    ok, obj := m.ObjAlloc(page);
    m.HeaderCount();
    WholeMeans(m.g, m.Now(), m.zones, obj - ZONE);
    ghost var s := m.Now();
    var r := m.ObjFree(obj);
    AtMostAll(m.g, s);
    assert s.list == [s.slabs] && FirstRoom(m.g, m.Now(), 0);
    m.Overrun(Rear(m.g, obj - ZONE), 0);
    assert FirstRoom(m.g, m.Now(), 0);
    ok, obj := m.ObjAlloc(NULL);
  }

  lemma AtMostAll(g: Shape, s: State)
    requires Inv(g, s)
    ensures forall i :: 0 <= i < |s.list| ==> s.list[i] in s.headers && s.headers[s.list[i]].inuse <= g.nobjs
  {
    hide SlabOk, Fits, Listed, Housed;
    forall i: nat | i < |s.list| ensures s.list[i] in s.headers && s.headers[s.list[i]].inuse <= g.nobjs {
      var h := s.list[i];
      assert Ok(g, s, h);
      InUseBound(g, h, s.headers[h], s.chains[h], s.ctl, s.live);
    }
  }

  lemma ShapeFits(objsize: nat, order: nat)
    requires BlockSize(order) >= HEAD && NumObjs(objsize, order) >= 1 && objsize >= 2 * ZONE
    ensures Fits(Shape(objsize, NumObjs(objsize, order), BlockSize(order)))
  {
    hide BlockSize, NumObjs, ObjAt;
    forall x: Addr ensures ObjAt(objsize, x, NumObjs(objsize, order)) + HEAD <= x + BlockSize(order) {
      SlabEnds(objsize, order, x);
    }
  }

  lemma ThreadNone(g: Shape, addr: Addr, ctl: Ctl)
    ensures Threaded(g, addr, ctl, 0)
  {
  }

  /** One more control word; it lies inside the block and is no earlier one. */
  lemma ThreadOne(g: Shape, addr: Addr, ctl: Ctl, i: nat)
    requires Fits(g) && i < g.nobjs && Threaded(g, addr, ctl, i)
    ensures var w := ObjAt(g.objsize, addr, i) + g.objsize;
      && addr <= w < addr + g.block
      && Threaded(g, addr, ctl[w := Control(NextObj(g, addr, i), true)], i + 1)
  {
    hide ObjAt;
    ObjIsWithin(g, addr, ObjAt(g.objsize, addr, i));
    assert ObjAt(g.objsize, addr, g.nobjs) + HEAD <= addr + g.block;
    forall k: nat | k < i ensures ObjAt(g.objsize, addr, k) != ObjAt(g.objsize, addr, i) {
      ObjAtOrder(g.objsize, addr, k, i);
    }
  }
}
