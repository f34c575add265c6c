/**
 * Memory objects: the page frames of an object are kept twice, on a list and in a
 * B-tree that maps page numbers to frames.  `PageIndex` is the B-tree seen from
 * outside, as a map; `MemoryObject` keeps the list and the index in step.
 */
module PageCache {
  import opened BTree
  import opened BTreeMemory

  /** The root pointer handed to the `btree_*` calls, with the nodes it reaches. */
  class PageIndex {
    var nodes: NodeMemory
    var root: Ptr
    ghost var layout: Option<Layout>
    ghost var height: nat

    /** An unshared B-tree hangs off the root, and no other node is allocated. */
    ghost predicate Valid()
      reads this, nodes
    {
      && RootAt(nodes.mem, layout, root)
      && IsIndex(EraseOf(layout), height)
      && Stored(Entries(EraseOf(layout)))
      && forall q :: q in nodes.mem <==> q in UsesOf(layout)
    }

    ghost function Contents(): map<Key, Data>
      reads this
    {
      AsMap(Entries(EraseOf(layout)))
    }

    constructor ()
      ensures Valid() && Contents() == map[] && root == NULL && fresh(nodes)
    {
      nodes := new NodeMemory();
      root := NULL;
      layout := None;
      height := 0;
    }

    method Search(key: Key) returns (d: Data)
      requires Valid()
      ensures d == if key in Contents() then Contents()[key] else 0
    {
      if root == NULL {
        return 0;
      }
      d := nodes.Search(root, key, layout.value, height);
      SearchIsLookup(Erase(layout.value), height, key);
    }

    /** The new key is there for all keys; what is left is an index if and only if it fits an `int`. */
    method Insert(key: Key, data: Data)
      requires Valid() && key !in Contents() && data != 0
      modifies this, nodes
      ensures nodes == old(nodes) && Contents() == old(Contents())[key := data]
      ensures Valid() <==> FitsInt(key)
    {
      hide Rep, Uses, Once, Balanced, Inorder, BTree.Insert, InsertSorted, AsMap, Sorted, Stored;
      NullRoot(nodes.mem, layout, root);
      var e := Entry(key, data);
      ghost var was, m := layout, nodes.mem;
      Absent(Entries(EraseOf(layout)), key);
      InsertInserts(EraseOf(layout), height, e);
      InsertIsUpdate(EraseOf(layout), height, e);
      StoredInserted(Entries(EraseOf(layout)), e);
      var root', p' := nodes.Insert(root, e, layout, height);
      height := BTree.Insert(EraseOf(layout), height, e).1;
      root, layout := root', Some(p');
      AllUsed(m, nodes.mem, UsesOf(was), Uses(p'));
    }

    /** `ok` is false where `btree_delete` panics. */
    method Delete(key: Key) returns (ok: bool)
      requires Valid()
      modifies this, nodes
      ensures Valid() && nodes == old(nodes) && Contents() == old(Contents()) - {key}
      ensures ok <==> key in old(Contents())
    {
      hide Rep, Uses, Once, Balanced, Inorder, BTree.Delete, DeleteFrom, AsMap, Sorted, Stored;
      NullRoot(nodes.mem, layout, root);
      Absent(Entries(EraseOf(layout)), key);
      if root == NULL {
        Removed(Contents(), key);
        return false;
      }
      ghost var was, m := layout.value, nodes.mem;
      DeleteDeletes(Erase(was), height, key);
      DeleteIsRemoval(Erase(was), height, key);
      StoredRemoved(Inorder(Erase(was)), key);
      SearchTells(Erase(was), height, key);
      OrderedCompletes(Erase(was), height, key);
      ghost var p';
      ok, root, p' := nodes.Delete(root, key, was, height);
      if ok {
        height := BTree.Delete(Erase(was), height, key).1;
        layout := p';
        AllUsed(m, nodes.mem, Uses(was), UsesOf(p'));
      } else {
        Removed(Contents(), key);
      }
    }
  }

  lemma NullRoot(m: Memory, p: Option<Layout>, root: Ptr)
    requires RootAt(m, p, root)
    ensures root == NULL <==> p.None?
  {
  }

  lemma Removed(m: map<Key, Data>, k: Key)
    requires k !in m
    ensures m - {k} == m
  {
  }

  lemma AllUsed(m: Memory, m': Memory, u: multiset<Ptr>, u': multiset<Ptr>)
    requires Update(m, m', u, u') && forall q :: q in m <==> q in u
    ensures forall q :: q in m' <==> q in u'
  {
  }

  lemma Absent(s: seq<Entry>, k: Key)
    ensures Lacks(s, k) <==> k !in AsMap(s)
  {
    MapKeys(s);
  }

  lemma {:induction false} StoredInserted(s: seq<Entry>, e: Entry)
    requires Stored(s) && e.data != 0
    ensures Stored(InsertSorted(s, e))
  {
    if s != [] && s[0].key <= e.key {
      StoredInserted(s[1..], e);
    }
  }

  lemma {:induction false} StoredRemoved(s: seq<Entry>, k: Key)
    requires Stored(s)
    ensures Stored(Remove(s, k))
  {
    if s != [] {
      StoredRemoved(s[1..], k);
    }
  }

  // -------------------------------------------------------------- memory objects

  const ENOMEM := 12

  type FramePtr = nat

  /** A page frame; `addr` is 0 while its contents are not in memory. */
  datatype Frame = Frame(pagenum: Key, loc: nat, addr: nat, dirty: bool)

  /** List and index hold the same frames, each under its own page number. */
  ghost predicate InStep(list: seq<FramePtr>, frames: map<FramePtr, Frame>, index: map<Key, FramePtr>) {
    && Distinct(list)
    && (forall f :: f in frames <==> f in list)
    && (forall f :: f in frames ==> f != 0 && frames[f].pagenum in index && index[frames[f].pagenum] == f)
    && (forall k :: k in index ==> index[k] in frames && frames[index[k]].pagenum == k)
    && (forall f :: f in frames && frames[f].dirty ==> frames[f].addr != 0)
  }

  /** The list after `list_remove` of `f`. */
  function Unlink(list: seq<FramePtr>, f: FramePtr): seq<FramePtr> {
    if list == [] then [] else if list[0] == f then list[1..] else [list[0]] + Unlink(list[1..], f)
  }

  lemma {:induction false} UnlinkAt(a: seq<FramePtr>, f: FramePtr, b: seq<FramePtr>)
    requires f !in a
    ensures Unlink(a + [f] + b, f) == a + b
  {
    if a == [] {
      assert a + [f] + b == [f] + b;
    } else {
      assert (a + [f] + b)[1..] == a[1..] + [f] + b;
      UnlinkAt(a[1..], f, b);
      assert [a[0]] + (a[1..] + b) == a + b;
    }
  }

  ghost predicate Distinct(list: seq<FramePtr>) {
    forall i, j :: 0 <= i < j < |list| ==> list[i] != list[j]
  }

  lemma {:induction false} UnlinkFacts(list: seq<FramePtr>, f: FramePtr)
    requires Distinct(list) && f in list
    ensures Distinct(Unlink(list, f)) && forall g :: g in Unlink(list, f) <==> g in list && g != f
  {
    if list[0] != f {
      UnlinkFacts(list[1..], f);
      assert list[0] !in Unlink(list[1..], f);
    } else {
      assert forall g :: g in list[1..] <==> g in list && g != f;
    }
  }

  lemma StepCreated(list: seq<FramePtr>, frames: map<FramePtr, Frame>, index: map<Key, FramePtr>, f: FramePtr,
                    pf: Frame)
    requires InStep(list, frames, index) && f != 0 && f !in frames && pf.pagenum !in index && !pf.dirty
    ensures InStep(list + [f], frames[f := pf], index[pf.pagenum := f])
  {
  }

  lemma StepChanged(list: seq<FramePtr>, frames: map<FramePtr, Frame>, index: map<Key, FramePtr>, f: FramePtr,
                    pf: Frame)
    requires InStep(list, frames, index) && f in frames && pf.pagenum == frames[f].pagenum
    requires (pf.dirty ==> pf.addr != 0)
    ensures InStep(list, frames[f := pf], index)
  {
  }

  lemma Listed(list: seq<FramePtr>, frames: map<FramePtr, Frame>, index: map<Key, FramePtr>, f: FramePtr)
    requires InStep(list, frames, index) && f in frames
    ensures frames[f].pagenum in index
  {
  }

  lemma StepFreed(list: seq<FramePtr>, frames: map<FramePtr, Frame>, index: map<Key, FramePtr>, f: FramePtr)
    requires InStep(list, frames, index) && f in frames
    ensures InStep(Unlink(list, f), frames - {f}, index - {frames[f].pagenum})
  {
    UnlinkFacts(list, f);
  }

  /** The frames that stay in memory because flushing them fails. */
  predicate Stuck(frames: map<FramePtr, Frame>, flush: FramePtr -> int, f: FramePtr) {
    f in frames && frames[f].addr != 0 && frames[f].dirty && flush(f) != 0
  }

  function Kept(s: seq<FramePtr>, frames: map<FramePtr, Frame>, flush: FramePtr -> int): seq<FramePtr> {
    if s == [] then []
    else
      var n := |s| - 1;
      Kept(s[..n], frames, flush) + if Stuck(frames, flush, s[n]) then [s[n]] else []
  }

  lemma {:induction false} KeptIn(s: seq<FramePtr>, frames: map<FramePtr, Frame>, flush: FramePtr -> int)
    ensures forall f :: f in Kept(s, frames, flush) <==> f in s && Stuck(frames, flush, f)
  {
    if s != [] {
      var n := |s| - 1;
      KeptIn(s[..n], frames, flush);
      assert s == s[..n] + [s[n]];
    }
  }

  /** Only frame `pf` changes, in address and dirty flag; a new frame is for page `pagenum`. */
  ghost predicate Touched(was: map<FramePtr, Frame>, now: map<FramePtr, Frame>, pf: FramePtr, pagenum: Key,
                          forWrite: bool) {
    && (forall f :: f in was && f != pf ==> f in now && now[f] == was[f])
    && (pf in was ==> pf in now && now[pf] == was[pf].(addr := now[pf].addr, dirty := was[pf].dirty || forWrite))
    && (forall f :: f in now && f !in was ==> now[f].pagenum == pagenum)
  }

  lemma MaybeCreated(was: map<FramePtr, Frame>, now: map<FramePtr, Frame>, pagenum: Key, forWrite: bool)
    requires 0 !in was
    requires (now == was || exists f: FramePtr :: f !in was && now == was[f := Frame(pagenum, 0, 0, false)])
    ensures Touched(was, now, 0, pagenum, forWrite)
  {
  }

  lemma FrameSet(was: map<FramePtr, Frame>, got: map<FramePtr, Frame>, now: map<FramePtr, Frame>, pf: FramePtr,
                 pagenum: Key, forWrite: bool)
    requires Touched(was, got, 0, pagenum, forWrite) && pf in got && pf != 0 && 0 !in was
    requires pf in now && now == got[pf := got[pf].(addr := now[pf].addr, dirty := got[pf].dirty || forWrite)]
    ensures Touched(was, now, pf, pagenum, forWrite)
  {
  }

  /** The frames of a page. */
  function FramesOf(frames: map<FramePtr, Frame>, pagenum: Key): set<FramePtr> {
    set f | f in frames && frames[f].pagenum == pagenum
  }

  /** Whether the contents of a page are in memory. */
  ghost predicate InMemory(frames: map<FramePtr, Frame>, pagenum: Key) {
    exists f :: f in FramesOf(frames, pagenum) && frames[f].addr != 0
  }

  /** What asking for a frame returns; `memory`, `page` and `fill` answer the three requests that can fail. */
  ghost function GetCode(frames: map<FramePtr, Frame>, pagenum: Key, memory: bool, page: nat, fill: int): int {
    if FramesOf(frames, pagenum) == {} && !memory then -ENOMEM
    else if InMemory(frames, pagenum) then 0
    else if page == 0 then -ENOMEM
    else fill
  }

  lemma OneFrame(list: seq<FramePtr>, frames: map<FramePtr, Frame>, index: map<Key, FramePtr>, pf: FramePtr)
    requires InStep(list, frames, index) && pf in frames
    ensures FramesOf(frames, frames[pf].pagenum) == {pf}
    ensures (InMemory(frames, frames[pf].pagenum) <==> frames[pf].addr != 0)
  {
    assert pf in FramesOf(frames, frames[pf].pagenum);
  }

  lemma OneNew(was: map<FramePtr, Frame>, frames: map<FramePtr, Frame>, pf: FramePtr, f: Frame)
    requires FramesOf(was, f.pagenum) == {} && pf !in was && frames == was[pf := f]
    ensures FramesOf(frames, f.pagenum) == {pf}
  {
    assert forall g :: g in was ==> g !in FramesOf(was, f.pagenum);
  }

  class MemoryObject {
    var index: PageIndex
    var list: seq<FramePtr>
    var frames: map<FramePtr, Frame>
    /** The frames whose mutex is held. */
    var held: set<FramePtr>

    ghost predicate Stepped()
      reads this, index
    {
      InStep(list, frames, index.Contents()) && held <= frames.Keys
    }

    ghost predicate Valid()
      reads this, index, index.nodes
    {
      index.Valid() && Stepped()
    }

    constructor ()
      ensures Valid() && list == [] && frames == map[] && held == {} && fresh(index) && fresh(index.nodes)
    {
      index := new PageIndex();
      list, frames, held := [], map[], {};
    }

    /** `mobj_find_pframe`; a frame that is found is locked, so it must not be held. */
    method FindFrame(pagenum: Key) returns (pf: FramePtr)
      requires Valid() && FramesOf(frames, pagenum) !! held
      modifies this`held
      ensures Valid() && held == old(held) + FramesOf(frames, pagenum)
      ensures pf == 0 <==> FramesOf(frames, pagenum) == {}
      ensures pf != 0 ==> pf in list && frames[pf].pagenum == pagenum
    {
      hide InStep, PageIndex.Valid, PageIndex.Contents, FramesOf;
      Indexed(list, frames, index.Contents(), pagenum);
      pf := index.Search(pagenum);
      if pf != 0 {
        held := held + {pf};
      }
    }

    /** `pframe_release`. */
    method Release(pf: FramePtr)
      requires Stepped() && pf in held
      modifies this`held
      ensures Stepped() && (Valid() <==> old(Valid())) && held == old(held) - {pf}
    {
      held := held - {pf};
    }

    /** `mobj_create_pframe`; `memory` says whether `pframe_create` succeeds. */
    method CreateFrame(pagenum: Key, loc: nat, memory: bool) returns (pf: FramePtr)
      requires Valid() && FramesOf(frames, pagenum) == {}
      modifies this, index, index.nodes
      ensures Stepped() && index == old(index) && index.nodes == old(index.nodes)
      ensures Valid() <==> (memory ==> FitsInt(pagenum))
      ensures pf != 0 <==> memory
      ensures pf == 0 ==> list == old(list) && frames == old(frames) && held == old(held)
      ensures pf != 0 ==>
        pf !in old(frames) && list == old(list) + [pf] && frames == old(frames)[pf := Frame(pagenum, loc, 0, false)]
      ensures pf != 0 ==> held == old(held) + {pf}
    {
      if !memory {
        return 0;
      }
      Indexed(list, frames, index.Contents(), pagenum);
      pf := FreshFrame();
      held := held + {pf};
      StepCreated(list, frames, index.Contents(), pf, Frame(pagenum, loc, 0, false));
      frames := frames[pf := Frame(pagenum, loc, 0, false)];
      list := list + [pf];
      index.Insert(pagenum, pf);
    }

    method FreshFrame() returns (pf: FramePtr)
      ensures pf != 0 && pf !in frames
    {
      ghost var top := MaxPlusOne(frames.Keys);
      assert top + 1 !in frames;
      pf :| pf != 0 && pf !in frames;
    }

    /**
     * `mobj_default_get_pframe`; `page` is what `page_alloc` returns and `fill` what the
     * object's `fill_pframe` returns.
     */
    method GetFrame(pagenum: Key, forWrite: bool, memory: bool, page: nat, fill: int) returns (ret: int, pf: FramePtr)
      requires Valid() && FramesOf(frames, pagenum) !! held
      modifies this, index, index.nodes
      ensures Stepped() && index == old(index) && index.nodes == old(index.nodes)
      ensures Valid() <==> (FramesOf(old(frames), pagenum) == {} && memory ==> FitsInt(pagenum))
      ensures ret == GetCode(old(frames), pagenum, memory, page, fill) && (pf != 0 <==> ret == 0)
      ensures ret == 0 ==>
        pf in list && frames[pf].pagenum == pagenum && frames[pf].addr != 0 && (forWrite ==> frames[pf].dirty)
      ensures old(list) <= list && |list| <= |old(list)| + 1
      ensures Touched(old(frames), frames, pf, pagenum, forWrite)
      ensures FramesOf(frames, pagenum) == {} <==> FramesOf(old(frames), pagenum) == {} && !memory
      ensures held == old(held) + if ret == 0 || page == 0 then FramesOf(frames, pagenum) else {}
    {
      hide InStep, PageIndex.Valid, PageIndex.Contents, Touched, FramesOf, InMemory;
      InStepFacts(list, frames, index.Contents());
      ghost var was := frames;
      pf := FindFrame(pagenum);
      if pf == 0 {
        NotThere(frames, pagenum);
        pf := CreateFrame(pagenum, 0, memory);
        if pf != 0 {
          OneNew(was, frames, pf, Frame(pagenum, 0, 0, false));
        }
      } else {
        OneFrame(list, frames, index.Contents(), pf);
      }
      InStepFacts(list, frames, index.Contents());
      MaybeCreated(was, frames, pagenum, forWrite);
      if pf == 0 {
        return -ENOMEM, 0;
      }
      ghost var got := frames;
      if frames[pf].addr == 0 {
        if page == 0 {
          return -ENOMEM, 0;
        }
        if fill != 0 {
          Release(pf);
          return fill, 0;
        }
        StepChanged(list, frames, index.Contents(), pf, frames[pf].(addr := page));
        frames := frames[pf := frames[pf].(addr := page)];
      }
      StepChanged(list, frames, index.Contents(), pf, frames[pf].(dirty := frames[pf].dirty || forWrite));
      frames := frames[pf := frames[pf].(dirty := frames[pf].dirty || forWrite)];
      OneFrame(list, frames, index.Contents(), pf);
      FrameSet(was, got, frames, pf, pagenum, forWrite);
      ret := 0;
    }

    /** `mobj_free_pframe`; `flush` is what the object's `flush_pframe` would return for the frame. */
    method FreeFrame(pf: FramePtr, flush: int) returns (ret: int)
      requires Valid() && pf in held
      modifies this, index, index.nodes
      ensures Valid() && index == old(index) && index.nodes == old(index.nodes)
      ensures ret == if old(frames)[pf].addr != 0 && old(frames)[pf].dirty then flush else 0
      ensures ret != 0 ==> list == old(list) && frames == old(frames) && held == old(held)
      ensures ret == 0 ==> list == Unlink(old(list), pf) && frames == old(frames) - {pf} && held == old(held) - {pf}
    {
      hide InStep, PageIndex.Valid, PageIndex.Contents;
      Listed(list, frames, index.Contents(), pf);
      if frames[pf].addr != 0 && frames[pf].dirty && flush != 0 {
        return flush;
      }
      StepFreed(list, frames, index.Contents(), pf);
      list := Unlink(list, pf);
      var ok := index.Delete(frames[pf].pagenum);
      assert ok;
      frames := frames - {pf};
      held := held - {pf};
      ret := 0;
    }

    /** `mobj_delete_pframe`. */
    method DeleteFrame(pagenum: Key)
      requires Valid() && FramesOf(frames, pagenum) !! held
      modifies this, index, index.nodes
      ensures Valid() && index == old(index) && index.nodes == old(index.nodes)
      ensures frames == old(frames) - FramesOf(old(frames), pagenum) && held == old(held)
    {
      hide InStep, PageIndex.Valid, PageIndex.Contents, FramesOf;
      Indexed(list, frames, index.Contents(), pagenum);
      var pf := index.Search(pagenum);
      if pf != 0 {
        StepFreed(list, frames, index.Contents(), pf);
        list := Unlink(list, pf);
        var ok := index.Delete(frames[pf].pagenum);
        assert ok;
        frames := frames - {pf};
      }
    }

    /** One round of the destructor: lock the frame and try to free it. */
    method DestroyFrame(pf: FramePtr, code: int, ghost all: seq<FramePtr>, ghost i: nat,
                        ghost was: map<FramePtr, Frame>, ghost flush: FramePtr -> int)
      requires Valid() && i < |all| && pf == all[i] && code == flush(pf) && Distinct(all)
      requires Destroying(all, i, list, frames, held, was, flush)
      modifies this, index, index.nodes
      ensures Valid() && index == old(index) && index.nodes == old(index.nodes)
      ensures Destroying(all, i + 1, list, frames, held, was, flush)
    {
      hide InStep, Unlink, PageIndex.Valid, PageIndex.Contents, Distinct, Stuck, Destroying;
      DestroyStep(all, i, list, frames, held, was, flush);
      held := held + {pf};
      var _ := FreeFrame(pf, code);
    }

    /**
     * `mobj_default_destructor`: exactly the frames whose flush fails stay, locked, so its
     * assertion that the tree is gone holds if and only if every flush succeeds.
     */
    method Destroy(flush: FramePtr -> int)
      requires Valid() && held == {}
      modifies this, index, index.nodes
      ensures Valid() && list == Kept(old(list), old(frames), flush)
      ensures index.root == NULL <==> forall f :: f in old(frames) ==> !Stuck(old(frames), flush, f)
      ensures held == frames.Keys
    {
      hide InStep, Unlink, PageIndex.Valid, PageIndex.Contents, Distinct, Stuck, Kept, Destroying;
      var all, i := list, 0;
      ghost var was := frames;
      InStepFacts(list, frames, index.Contents());
      DestroyStarts(all, was, flush);
      while i < |all|
        invariant 0 <= i <= |all| && Valid() && index == old(index) && index.nodes == old(index.nodes)
        invariant Destroying(all, i, list, frames, held, was, flush)
      {
        DestroyFrame(all[i], flush(all[i]), all, i, was, flush);
        i := i + 1;
      }
      InStepFacts(list, frames, index.Contents());
      DestroyEnds(all, list, frames, held, was, flush);
      EmptyIndex(list, frames, index.Contents());
      NullIndex(index);
    }
  }

  ghost predicate HeldAre(held: set<FramePtr>, s: seq<FramePtr>) {
    forall f :: f in held <==> f in s
  }

  lemma HeldMore(held: set<FramePtr>, all: seq<FramePtr>, i: nat, was: map<FramePtr, Frame>, flush: FramePtr -> int)
    requires i < |all| && Distinct(all) && HeldAre(held, Kept(all[..i], was, flush))
    ensures HeldAre(if Stuck(was, flush, all[i]) then held + {all[i]} else held + {all[i]} - {all[i]},
              Kept(all[..i + 1], was, flush))
  {
    hide Stuck;
    OneFreed(all, i, was, flush);
    NotFreedYet(all, i, was, flush);
  }

  /** The index finds the one frame of a page. */
  lemma Indexed(list: seq<FramePtr>, frames: map<FramePtr, Frame>, index: map<Key, FramePtr>, pagenum: Key)
    requires InStep(list, frames, index)
    ensures pagenum !in index ==> FramesOf(frames, pagenum) == {}
    ensures pagenum in index ==> var pf := index[pagenum];
      pf != 0 && pf in frames && pf in list && frames[pf].pagenum == pagenum && FramesOf(frames, pagenum) == {pf}
  {
    if pagenum in index {
      OneFrame(list, frames, index, index[pagenum]);
    }
  }

  lemma AllHeld(held: set<FramePtr>, list: seq<FramePtr>, frames: map<FramePtr, Frame>)
    requires HeldAre(held, list) && forall f :: f in frames <==> f in list
    ensures held == frames.Keys
  {
  }

  lemma NotThere(frames: map<FramePtr, Frame>, pagenum: Key)
    requires FramesOf(frames, pagenum) == {}
    ensures !InMemory(frames, pagenum)
  {
  }

  /** When no page can be had, the frame stays locked: nobody can ask for that page again. */
  method LeftLocked(pagenum: Key) returns (o: MemoryObject, ret: int)
    ensures o.Stepped() && (o.Valid() <==> FitsInt(pagenum))
    ensures ret == -ENOMEM && !(FramesOf(o.frames, pagenum) !! o.held)
  {
    hide InStep, PageIndex.Valid, PageIndex.Contents, Touched;
    o := new MemoryObject();
    var pf;
    ret, pf := o.GetFrame(pagenum, false, true, 0, 0);
    var f :| f in FramesOf(o.frames, pagenum);
    assert f in o.held;
  }

  ghost predicate AsBefore(list: seq<FramePtr>, frames: map<FramePtr, Frame>, was: map<FramePtr, Frame>) {
    forall f :: f in list ==> f in frames && f in was && frames[f] == was[f]
  }

  /** The state of the destructor before frame `i`. */
  ghost predicate Destroying(all: seq<FramePtr>, i: nat, list: seq<FramePtr>, frames: map<FramePtr, Frame>,
                             held: set<FramePtr>,
                             was: map<FramePtr, Frame>, flush: FramePtr -> int) {
    && i <= |all| && list == Kept(all[..i], was, flush) + all[i..] && AsBefore(list, frames, was)
    && HeldAre(held, Kept(all[..i], was, flush))
  }

  lemma DestroyStarts(all: seq<FramePtr>, was: map<FramePtr, Frame>, flush: FramePtr -> int)
    requires forall f :: f in was <==> f in all
    ensures Destroying(all, 0, all, was, {}, was, flush)
  {
  }

  lemma DestroyEnds(all: seq<FramePtr>, list: seq<FramePtr>, frames: map<FramePtr, Frame>, held: set<FramePtr>,
                    was: map<FramePtr, Frame>, flush: FramePtr -> int)
    requires Destroying(all, |all|, list, frames, held, was, flush)
    requires (forall f :: f in was <==> f in all) && forall f :: f in frames <==> f in list
    ensures list == Kept(all, was, flush) && held == frames.Keys
    ensures list == [] <==> forall f :: f in was ==> !Stuck(was, flush, f)
  {
    hide Stuck;
    assert all[..|all|] == all && all[|all|..] == [];
    KeptIn(all, was, flush);
    AllHeld(held, list, frames);
    if list != [] {
      assert Stuck(was, flush, list[0]);
    }
  }

  /** The next frame is freed, or stays and is left locked. */
  lemma DestroyStep(all: seq<FramePtr>, i: nat, list: seq<FramePtr>, frames: map<FramePtr, Frame>, held: set<FramePtr>,
                    was: map<FramePtr, Frame>, flush: FramePtr -> int)
    requires Destroying(all, i, list, frames, held, was, flush) && i < |all| && Distinct(all)
    ensures var pf := all[i];
      && pf in frames && pf in was && frames[pf] == was[pf]
      && (Stuck(was, flush, pf) <==> frames[pf].addr != 0 && frames[pf].dirty && flush(pf) != 0)
      && (Stuck(was, flush, pf) ==> Destroying(all, i + 1, list, frames, held + {pf}, was, flush))
      && (!Stuck(was, flush, pf) ==>
           Destroying(all, i + 1, Unlink(list, pf), frames - {pf}, held + {pf} - {pf}, was, flush))
  {
    hide Kept, Stuck, Unlink, AsBefore, HeldAre;
    DestroyGoesOn(all, i, list, frames, was, flush);
    HeldMore(held, all, i, was, flush);
  }

  lemma DestroyGoesOn(all: seq<FramePtr>, i: nat, list: seq<FramePtr>, frames: map<FramePtr, Frame>,
                      was: map<FramePtr, Frame>, flush: FramePtr -> int)
    requires i < |all| && Distinct(all) && AsBefore(list, frames, was) && list == Kept(all[..i], was, flush) + all[i..]
    ensures var pf := all[i];
      && pf in frames && pf in was && frames[pf] == was[pf]
      && (if Stuck(was, flush, pf) then list else Unlink(list, pf)) == Kept(all[..i + 1], was, flush) + all[i + 1..]
      && (Stuck(was, flush, pf) <==> was[pf].addr != 0 && was[pf].dirty && flush(pf) != 0)
      && AsBefore(Unlink(list, pf), frames - {pf}, was)
  {
    hide Kept, Stuck, Unlink;
    OneFreed(all, i, was, flush);
    var k := Kept(all[..i], was, flush);
    assert all[i] in list by {
      assert list[|k|] == all[i];
    }
    assert Stuck(was, flush, all[i]) <==> was[all[i]].addr != 0 && was[all[i]].dirty && flush(all[i]) != 0 by {
      StuckMeans(was, flush, all[i]);
    }
    NotFreedYet(all, i, was, flush);
    assert forall f :: f in k + all[i + 1..] ==> f in list;
  }

  lemma StuckMeans(frames: map<FramePtr, Frame>, flush: FramePtr -> int, f: FramePtr)
    requires f in frames
    ensures Stuck(frames, flush, f) <==> frames[f].addr != 0 && frames[f].dirty && flush(f) != 0
  {
  }

  lemma NotFreedYet(all: seq<FramePtr>, i: nat, frames: map<FramePtr, Frame>, flush: FramePtr -> int)
    requires i < |all| && Distinct(all)
    ensures all[i] !in Kept(all[..i], frames, flush) && all[i] !in all[i + 1..]
  {
    KeptIn(all[..i], frames, flush);
    assert all[i] !in all[..i];
  }

  lemma InStepFacts(list: seq<FramePtr>, frames: map<FramePtr, Frame>, index: map<Key, FramePtr>)
    requires InStep(list, frames, index)
    ensures Distinct(list) && 0 !in list
    ensures forall f :: f in frames <==> f in list
    ensures forall f :: f in frames && frames[f].dirty ==> frames[f].addr != 0
  {
  }

  lemma EmptyIndex(list: seq<FramePtr>, frames: map<FramePtr, Frame>, index: map<Key, FramePtr>)
    requires InStep(list, frames, index)
    ensures list == [] <==> index == map[]
  {
    if list != [] {
      assert list[0] in frames && frames[list[0]].pagenum in index;
    } else {
      assert forall k :: k !in index;
    }
  }

  lemma NullIndex(x: PageIndex)
    requires x.Valid()
    ensures x.root == NULL <==> x.Contents() == map[]
  {
    NullRoot(x.nodes.mem, x.layout, x.root);
    if x.layout.Some? {
      EntryIn(Erase(x.layout.value), 0);
      MapKeys(Inorder(Erase(x.layout.value)));
      var i :| 0 <= i < |Inorder(Erase(x.layout.value))|
          && Inorder(Erase(x.layout.value))[i] == Erase(x.layout.value).es[0];
      assert Erase(x.layout.value).es[0].key in x.Contents();
    }
  }

  lemma OneFreed(all: seq<FramePtr>, i: nat, frames: map<FramePtr, Frame>, flush: FramePtr -> int)
    requires i < |all| && Distinct(all)
    ensures var k := Kept(all[..i], frames, flush);
      && k + all[i..] == k + [all[i]] + all[i + 1..]
      && Unlink(k + [all[i]] + all[i + 1..], all[i]) == k + all[i + 1..]
      && Kept(all[..i + 1], frames, flush) == k + if Stuck(frames, flush, all[i]) then [all[i]] else []
  {
    var k := Kept(all[..i], frames, flush);
    KeptIn(all[..i], frames, flush);
    assert all[i] !in all[..i];
    assert all[i..] == [all[i]] + all[i + 1..];
    UnlinkAt(k, all[i], all[i + 1..]);
    assert all[..i + 1][..i] == all[..i];
  }
}
