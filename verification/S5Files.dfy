/**
 * Reading and writing S5 files: the bytes of a file lie in cached pages, in direct and
 * indirect blocks, or nowhere (a sparse block reads as zeros).
 */
module S5Files {
  import S5Blocks

  const BLOCK := 4096
  const NDIRECT := S5Blocks.NDIRECT
  const NINDIRECT := S5Blocks.NINDIRECT
  const MAX_BLOCKS := NDIRECT + NINDIRECT
  const MAX_SIZE := MAX_BLOCKS * BLOCK

  const EINVAL := 22
  const ENOMEM := 12
  const EFBIG := 27
  const ENOSPC := 28

  type Byte = nat
  type Page = seq<Byte>

  function Zeros(n: nat): (p: Page)
    ensures |p| == n
  {
    seq(n, _ => 0)
  }

  /** A file block as it reads: the cached page, the block on disk, or zeros. */
  function PageOf(cache: map<nat, Page>, disk: map<nat, Page>, k: nat): Page {
    if k in cache then cache[k] else if k in disk then disk[k] else Zeros(BLOCK)
  }

  predicate PagesOk(pages: map<nat, Page>) {
    forall k :: k in pages ==> |pages[k]| == BLOCK
  }

  /** Byte `i` of the file. */
  function ByteAt(cache: map<nat, Page>, disk: map<nat, Page>, i: nat): Byte
    requires PagesOk(cache) && PagesOk(disk)
  {
    PageOf(cache, disk, i / BLOCK)[i % BLOCK]
  }

  function Bytes(cache: map<nat, Page>, disk: map<nat, Page>, n: nat): seq<Byte>
    requires PagesOk(cache) && PagesOk(disk)
  {
    seq(n, i requires 0 <= i < n => ByteAt(cache, disk, i))
  }

  /** Nothing is stored behind the end of the file. */
  ghost predicate ZeroTail(cache: map<nat, Page>, disk: map<nat, Page>, n: nat)
    requires PagesOk(cache) && PagesOk(disk)
  {
    forall i: nat :: i >= n ==> ByteAt(cache, disk, i) == 0
  }

  /** A plain byte sequence with `data` put at `pos`; a gap before it is filled with zeros. */
  function Splice(s: seq<Byte>, pos: nat, data: seq<Byte>): (r: seq<Byte>)
    ensures |r| == if pos + |data| > |s| && data != [] then pos + |data| else |s|
  {
    if data == [] then s
    else if pos >= |s| then s + Zeros(pos - |s|) + data
    else s[..pos] + data + if pos + |data| < |s| then s[pos + |data|..] else []
  }

  lemma SpliceAt(s: seq<Byte>, pos: nat, data: seq<Byte>, i: nat)
    requires i < |Splice(s, pos, data)|
    ensures Splice(s, pos, data)[i] == if pos <= i < pos + |data| then data[i - pos] else if i < |s| then s[i] else 0
  {
  }

  /** A page that is neither cached nor on disk. */
  predicate Sparse(cache: map<nat, Page>, disk: map<nat, Page>, k: nat) {
    k !in cache && k !in disk
  }

  /**
   * Which pages are cached and which have a block, after the pages `lo .. hi` were used: all of them are
   * cached, and writing gives a block to those that were not cached before.
   */
  ghost predicate Used(cache: map<nat, Page>, disk: map<nat, Page>, cache': map<nat, Page>, disk': map<nat, Page>,
                       lo: nat, hi: nat, forWrite: bool) {
    && (forall k: nat :: lo <= k < hi ==> k in cache' && (k in disk' <==> k in disk || (forWrite && k !in cache)))
    && (forall k: nat :: !(lo <= k < hi) ==> (k in cache' <==> k in cache))
    && (forall k: nat :: !(lo <= k < hi) ==> (k in disk' <==> k in disk))
  }

  // -------------------------------------------------------------- blocks a write needs

  /** What writing one page takes: a block if it has none, and an indirect block if that has to name it. */
  function PageNeeds(cache: map<nat, Page>, disk: map<nat, Page>, hasIndirect: bool, k: nat): nat {
    if k in cache then 0
    else (if k >= NDIRECT && !hasIndirect then 1 else 0) + if k in disk then 0 else 1
  }

  /** Whether there is an indirect block after the pages `lo .. hi` were written. */
  ghost predicate IndirectAfter(cache: map<nat, Page>, hasIndirect: bool, lo: nat, hi: nat) {
    hasIndirect || exists k :: lo <= k < hi && k >= NDIRECT && k !in cache
  }

  /** What writing the pages `lo .. hi` in turn takes. */
  ghost function Needs(cache: map<nat, Page>, disk: map<nat, Page>, hasIndirect: bool, lo: nat, hi: nat): nat
    decreases hi
  {
    if hi <= lo then 0
    else
      Needs(cache, disk, hasIndirect, lo, hi - 1)
      + PageNeeds(cache, disk, IndirectAfter(cache, hasIndirect, lo, hi - 1), hi - 1)
  }

  ghost function SparsePages(cache: map<nat, Page>, disk: map<nat, Page>, lo: nat, hi: nat): nat
    decreases hi
  {
    if hi <= lo then 0
    else SparsePages(cache, disk, lo, hi - 1) + if Sparse(cache, disk, hi - 1) then 1 else 0
  }

  /** That is one block for each sparse page, and at most one for all indirect pointers. */
  lemma {:induction false} NeedsAre(cache: map<nat, Page>, disk: map<nat, Page>, hasIndirect: bool, lo: nat, hi: nat)
    ensures Needs(cache, disk, hasIndirect, lo, hi)
      == SparsePages(cache, disk, lo, hi)
         + if !hasIndirect && IndirectAfter(cache, hasIndirect, lo, hi) then 1 else 0
    decreases hi
  {
    if lo < hi {
      NeedsAre(cache, disk, hasIndirect, lo, hi - 1);
    }
  }

  lemma {:induction false} NeedsGrow(cache: map<nat, Page>, disk: map<nat, Page>, hasIndirect: bool, lo: nat, mid: nat,
                                     hi: nat)
    requires mid <= hi
    ensures Needs(cache, disk, hasIndirect, lo, mid) <= Needs(cache, disk, hasIndirect, lo, hi)
    decreases hi
  {
    if mid < hi {
      NeedsGrow(cache, disk, hasIndirect, lo, mid, hi - 1);
    }
  }

  /** The next page needs what it needed at the start. */
  lemma NeedsNext(c0: map<nat, Page>, d0: map<nat, Page>, i0: bool, c1: map<nat, Page>, d1: map<nat, Page>, i1: bool,
                  lo: nat, k: nat)
    requires lo <= k && Used(c0, d0, c1, d1, lo, k, true) && i1 == IndirectAfter(c0, i0, lo, k)
    ensures Needs(c0, d0, i0, lo, k + 1) == Needs(c0, d0, i0, lo, k) + PageNeeds(c1, d1, i1, k)
    ensures IndirectAfter(c0, i0, lo, k + 1) == (i1 || (k >= NDIRECT && k !in c1))
  {
  }

  lemma NeedsNone(c0: map<nat, Page>, d0: map<nat, Page>, i0: bool, lo: nat)
    ensures Needs(c0, d0, i0, lo, lo) == 0 && IndirectAfter(c0, i0, lo, lo) == i0
  {
  }

  lemma UsedTwice(c0: map<nat, Page>, d0: map<nat, Page>, c1: map<nat, Page>, d1: map<nat, Page>, c2: map<nat, Page>,
                  d2: map<nat, Page>, lo: nat, mid: nat, hi: nat, forWrite: bool)
    requires lo <= mid <= hi && Used(c0, d0, c1, d1, lo, mid, forWrite) && Used(c1, d1, c2, d2, mid, hi, forWrite)
    ensures Used(c0, d0, c2, d2, lo, hi, forWrite)
  {
  }

  /** No byte differs. */
  ghost predicate SameFile(cache: map<nat, Page>, disk: map<nat, Page>, cache': map<nat, Page>, disk': map<nat, Page>) {
    forall k :: PageOf(cache', disk', k) == PageOf(cache, disk, k)
  }

  /** The page behind the last byte of a stretch. */
  function PagesEnd(pos: nat, n: nat): nat {
    if n == 0 then pos / BLOCK else (pos + n - 1) / BLOCK + 1
  }

  /** How much of a write fits below the maximal size. */
  function Clipped(pos: nat, n: nat): nat
    requires pos <= MAX_SIZE
  {
    if pos + n > MAX_SIZE then MAX_SIZE - pos else n
  }

  /** The bytes of a file after `data` was written at `pos`, wherever the file ends. */
  ghost predicate Overwritten(cache: map<nat, Page>, disk: map<nat, Page>, cache': map<nat, Page>,
                              disk': map<nat, Page>, pos: nat, data: seq<Byte>)
    requires PagesOk(cache) && PagesOk(disk) && PagesOk(cache') && PagesOk(disk')
  {
    forall i: nat ::
      ByteAt(cache', disk', i) == if pos <= i < pos + |data| then data[i - pos] else ByteAt(cache, disk, i)
  }

  class File {
    var length: nat
    var size: nat
    var cache: map<nat, Page>
    var disk: map<nat, Page>
    var hasIndirect: bool
    var freeBlocks: nat

    ghost predicate Shaped()
      reads this
    {
      && length == size && length <= MAX_SIZE && PagesOk(cache) && PagesOk(disk)
      && (forall k :: k in disk ==> k < MAX_BLOCKS && (k >= NDIRECT ==> hasIndirect))
    }

    ghost predicate Valid()
      reads this
    {
      Shaped() && ZeroTail(cache, disk, length)
    }

    ghost function Contents(): seq<Byte>
      requires PagesOk(cache) && PagesOk(disk)
      reads this
    {
      Bytes(cache, disk, length)
    }

    constructor (freeBlocks: nat)
      ensures Valid() && Contents() == [] && length == 0 && cache == map[] && disk == map[]
      ensures this.freeBlocks == freeBlocks
    {
      length, size, cache, disk, hasIndirect := 0, 0, map[], map[], false;
      this.freeBlocks := freeBlocks;
    }

    /** `s5_alloc_block`, as far as a file sees it: it fails when no block is left. */
    method AllocBlock() returns (ok: bool)
      modifies this`freeBlocks
      ensures ok <==> old(freeBlocks) > 0
      ensures freeBlocks == if ok then old(freeBlocks) - 1 else 0
    {
      ok := freeBlocks > 0;
      if ok {
        freeBlocks := freeBlocks - 1;
      }
    }

    /** `s5_file_block_to_disk_block`: whether the block has a place on disk, after allocating one if asked. */
    method BlockOnDisk(k: nat, alloc: bool) returns (ret: int, isNew: bool)
      requires PagesOk(cache) && PagesOk(disk) && k !in cache
      requires forall j :: j in disk ==> j < MAX_BLOCKS && (j >= NDIRECT ==> hasIndirect)
      modifies this`disk, this`hasIndirect, this`freeBlocks
      ensures PagesOk(disk) && forall j :: j in disk ==> j < MAX_BLOCKS && (j >= NDIRECT ==> hasIndirect)
      ensures k >= MAX_BLOCKS ==> ret == -EINVAL
      ensures ret < 0 ==>
        disk == old(disk) && (k >= MAX_BLOCKS || (alloc && k !in disk && ret == -ENOSPC && freeBlocks == 0))
      ensures k < MAX_BLOCKS && alloc ==>
        && (ret >= 0 <==> PageNeeds(cache, old(disk), old(hasIndirect), k) <= old(freeBlocks))
        && (ret >= 0 ==> freeBlocks == old(freeBlocks) - PageNeeds(cache, old(disk), old(hasIndirect), k))
        && (ret >= 0 ==> hasIndirect == (old(hasIndirect) || k >= NDIRECT))
      ensures ret >= 0 ==>
        (ret == 1 <==> k in disk) && (alloc ==> k in disk) && (isNew <==> k !in old(disk) && k in disk)
      ensures forall j :: j != k ==> (j in disk <==> j in old(disk)) && (j in disk ==> disk[j] == old(disk)[j])
      ensures !isNew ==> disk == old(disk)
      ensures !alloc ==> freeBlocks == old(freeBlocks) && hasIndirect == old(hasIndirect) && disk == old(disk)
    {
      isNew := false;
      if k >= MAX_BLOCKS {
        return -EINVAL, false;
      }
      if k >= NDIRECT && !hasIndirect {
        if !alloc {
          return 0, false;
        }
        var ok := AllocBlock();
        if !ok {
          return -ENOSPC, false;
        }
        hasIndirect := true;
      }
      if k !in disk && alloc {
        var ok := AllocBlock();
        if !ok {
          return -ENOSPC, false;
        }
        // what the block held before is still there
        var junk := new nat[BLOCK];
        disk := disk[k := junk[..]];
        isNew := true;
      }
      ret := if k in disk then 1 else 0;
    }

    /**
     * `s5fs_get_pframe`: brings a page of the file into the cache, and changes no byte of the file; `memory`
     * says whether a frame for a sparse page can be had.
     */
    method GetPage(k: nat, forWrite: bool, memory: bool) returns (ret: int)
      requires PagesOk(cache) && PagesOk(disk)
      requires forall j :: j in disk ==> j < MAX_BLOCKS && (j >= NDIRECT ==> hasIndirect)
      modifies this`cache, this`disk, this`hasIndirect, this`freeBlocks
      ensures PagesOk(cache) && PagesOk(disk)
      ensures forall j :: j in disk ==> j < MAX_BLOCKS && (j >= NDIRECT ==> hasIndirect)
      ensures SameFile(old(cache), old(disk), cache, disk)
      ensures ret <= 0 && (ret == 0 ==> k in cache)
      ensures Used(old(cache), old(disk), cache, disk, k, if ret == 0 then k + 1 else k, forWrite)
      ensures length <= k * BLOCK ==> ret == -EINVAL
      ensures length > k * BLOCK && k < MAX_BLOCKS && forWrite ==>
        ret == 0 || (ret == -ENOSPC && freeBlocks == 0 && Sparse(old(cache), old(disk), k))
      ensures length > k * BLOCK && k < MAX_BLOCKS && forWrite ==>
        (ret == 0 <==> PageNeeds(old(cache), old(disk), old(hasIndirect), k) <= old(freeBlocks))
      ensures ret == 0 && forWrite ==>
        && freeBlocks == old(freeBlocks) - PageNeeds(old(cache), old(disk), old(hasIndirect), k)
        && hasIndirect == (old(hasIndirect) || (k >= NDIRECT && k !in old(cache)))
      ensures length > k * BLOCK && k < MAX_BLOCKS && !forWrite ==>
        ret == if Sparse(old(cache), old(disk), k) && !memory then -ENOMEM else 0
      ensures k in old(cache) || !forWrite ==>
        freeBlocks == old(freeBlocks) && disk == old(disk) && hasIndirect == old(hasIndirect)
    {
      if length <= k * BLOCK {
        return -EINVAL;
      }
      if k in cache {
        return 0;
      }
      var loc, isNew := BlockOnDisk(k, forWrite);
      if loc < 0 {
        return loc;
      }
      if loc == 1 {
        if isNew {
          cache := cache[k := Zeros(BLOCK)];
        } else {
          cache := cache[k := disk[k]];
        }
      } else {
        if !memory {
          return -ENOMEM;
        }
        cache := cache[k := Zeros(BLOCK)];
      }
      ret := 0;
    }

    /** One round of `s5_write_file`: a piece that lies in one block, all of it or nothing. */
    method WritePiece(pos: nat, data: seq<Byte>) returns (ret: int)
      requires Shaped() && data != [] && pos % BLOCK + |data| <= BLOCK && pos + |data| <= MAX_SIZE
      modifies this
      ensures Shaped() && (ret == 0 || (ret == -ENOSPC && freeBlocks == 0))
      ensures length == if ret == 0 && pos + |data| > old(length) then pos + |data| else old(length)
      ensures Overwritten(old(cache), old(disk), cache, disk, pos, if ret == 0 then data else [])
      ensures Used(old(cache), old(disk), cache, disk, pos / BLOCK,
                   if ret == 0 then pos / BLOCK + 1 else pos / BLOCK, true)
      ensures ret == 0 <==> PageNeeds(old(cache), old(disk), old(hasIndirect), pos / BLOCK) <= old(freeBlocks)
      ensures ret == 0 ==>
        && freeBlocks == old(freeBlocks) - PageNeeds(old(cache), old(disk), old(hasIndirect), pos / BLOCK)
        && hasIndirect == (old(hasIndirect) || (pos / BLOCK >= NDIRECT && pos / BLOCK !in old(cache)))
    {
      hide Used, SameFile, ByteAt, PageOf, PageNeeds;
      var blocknum, undo := pos / BLOCK, length;
      if pos + |data| > length {
        length := pos + |data|;
        size := length;
      }
      BlockInRange(pos, |data|);
      ret := GetPage(blocknum, true, true);
      SamePages(old(cache), old(disk), cache, disk, old(length));
      if ret < 0 {
        length := undo;
        size := undo;
        return;
      }
      ghost var was := cache;
      var page, off := cache[blocknum], pos % BLOCK;
      cache := cache[blocknum := page[..off] + data + page[off + |data|..]];
      forall i: nat
        ensures ByteAt(cache, disk, i)
          == if pos <= i < pos + |data| then data[i - pos] else ByteAt(old(cache), old(disk), i)
      {
        WrittenByte(was, cache, disk, pos, data, i);
      }
      UsedAlike(old(cache), old(disk), was, cache, disk, blocknum);
    }

    /** `s5_write_file`; `written` is how many bytes reached the file, whatever the outcome. */
    method Write(pos0: nat, buf: seq<Byte>) returns (ret: int, ghost written: nat)
      requires Shaped() && buf != []
      modifies this
      ensures Shaped() && written <= |buf|
      ensures length == if written > 0 && pos0 + written > old(length) then pos0 + written else old(length)
      ensures Overwritten(old(cache), old(disk), cache, disk, pos0, buf[..written])
      ensures Used(old(cache), old(disk), cache, disk, pos0 / BLOCK, PagesEnd(pos0, written), true)
      ensures pos0 >= MAX_SIZE ==> ret == -EFBIG && written == 0
      ensures pos0 < MAX_SIZE && ret >= 0 ==>
        ret == written == if pos0 + |buf| > MAX_SIZE then MAX_SIZE - pos0 else |buf|
      ensures pos0 < MAX_SIZE && ret < 0 ==> ret == -ENOSPC && freeBlocks == 0
      ensures pos0 < MAX_SIZE ==>
        var needs := Needs(old(cache), old(disk), old(hasIndirect), pos0 / BLOCK, PagesEnd(pos0, Clipped(pos0, |buf|)));
        (ret >= 0 <==> needs <= old(freeBlocks)) && (ret >= 0 ==> freeBlocks == old(freeBlocks) - needs)
      ensures old(Valid()) ==> Valid() && Contents() == Splice(old(Contents()), pos0, buf[..written])
    {
      hide Splice, ZeroTail, Bytes, PagesOk, Used, Overwritten, PagesEnd, Done, Progress, Needs;
      written := 0;
      NothingWritten(cache, disk, pos0, buf);
      if pos0 >= MAX_SIZE {
        DoneIs(old(cache), old(disk), cache, disk, pos0, buf[..0], old(length), length);
        return -EFBIG, written;
      }
      var pos, total := pos0, 0;
      var len := if pos + |buf| > MAX_SIZE then MAX_SIZE - pos else |buf|;
      ghost var was := Before(cache, disk, hasIndirect, freeBlocks);
      PagesStart(pos0);
      ProgressNone(was, pos0, buf);
      while len > 0
        invariant
          && Shaped() && 0 <= total <= |buf| && len >= 0
          && total + len == Clipped(pos0, |buf|)
        invariant length == if total > 0 && pos0 + total > old(length) then pos0 + total else old(length)
        invariant pos == pos0 + total && written == total
        invariant len > 0 ==> PagesEnd(pos0, total) == pos / BLOCK
        invariant Progress(was, cache, disk, hasIndirect, freeBlocks, pos0, buf[..total])
        decreases len
      {
        var n := if pos % BLOCK + len > BLOCK then BLOCK - pos % BLOCK else len;
        PieceInRange(pos0, total, len, n, |buf|);
        var r := WriteNext(pos, buf[total..total + n], was, pos0, buf, total);
        if r < 0 {
          DoneIs(old(cache), old(disk), cache, disk, pos0, buf[..total], old(length), length);
          return r, written;
        }
        len, pos, total := len - n, pos + n, total + n;
        written := total;
      }
      ProgressIs(was, cache, disk, hasIndirect, freeBlocks, pos0, buf[..total]);
      DoneIs(old(cache), old(disk), cache, disk, pos0, buf[..total], old(length), length);
      ret := total;
    }

    /** One round of the loop, as part of the whole write. */
    method WriteNext(pos: nat, data: seq<Byte>, ghost was: Start, ghost pos0: nat, ghost buf: seq<Byte>,
                     ghost total: nat)
      returns (r: int)
      requires Shaped() && PagesOk(was.cache) && PagesOk(was.disk) && pos0 <= MAX_SIZE
      requires data != [] && total + |data| <= Clipped(pos0, |buf|) && data == buf[total..total + |data|]
      requires pos == pos0 + total && pos % BLOCK + |data| <= BLOCK
      requires PagesEnd(pos0, total) == pos / BLOCK && PagesEnd(pos0, total + |data|) == pos / BLOCK + 1
      requires Progress(was, cache, disk, hasIndirect, freeBlocks, pos0, buf[..total])
      modifies this
      ensures Shaped() && (r == 0 || (r == -ENOSPC && freeBlocks == 0))
      ensures length == if r == 0 && pos + |data| > old(length) then pos + |data| else old(length)
      ensures r == 0 ==> Progress(was, cache, disk, hasIndirect, freeBlocks, pos0, buf[..total + |data|])
      ensures r < 0 ==> Done(was.cache, was.disk, cache, disk, pos0, buf[..total])
      ensures r < 0 ==>
        was.free < Needs(was.cache, was.disk, was.indirect, pos0 / BLOCK, PagesEnd(pos0, Clipped(pos0, |buf|)))
    {
      hide PagesOk, Used, Overwritten, PagesEnd, Done, PageNeeds, Needs, IndirectAfter;
      ghost var n, all := |data|, Clipped(pos0, |buf|);
      ghost var c1, d1 := cache, disk;
      PieceNeeds(was.cache, was.disk, was.indirect, c1, d1, hasIndirect, pos0, total, n, all, buf[..total]);
      r := WritePiece(pos, data);
      DoneOn(was.cache, was.disk, c1, d1, cache, disk, pos0, buf, total, n, r == 0);
    }

    /**
     * `s5_read_file`: exactly the bytes asked for, as far as the file goes; it fails if and only if a page of
     * them is sparse, not cached, and no memory can be had for it.  Even an empty read uses a page.
     */
    method Read(pos0: nat, len: nat, memory: nat -> bool) returns (ret: int, buf: seq<Byte>)
      requires Shaped()
      modifies this`cache, this`disk, this`hasIndirect, this`freeBlocks
      ensures Shaped() && Contents() == old(Contents()) && disk == old(disk) && freeBlocks == old(freeBlocks)
      ensures forall i: nat :: ByteAt(cache, disk, i) == ByteAt(old(cache), old(disk), i)
      ensures old(Valid()) ==> Valid()
      ensures ret < 0 ==> ret == -ENOMEM
      ensures ret < 0
        <==> && pos0 < length
             && exists k :: LacksMemory(old(cache), old(disk), memory, pos0, ReadSize(pos0, len, length), k)
      ensures ret >= 0 ==>
        ret == |buf| && buf == if pos0 >= length then [] else Contents()[pos0..pos0 + ReadSize(pos0, len, length)]
      ensures ret >= 0 && pos0 < length ==>
        Used(old(cache), old(disk), cache, disk, pos0 / BLOCK, ReadEnd(pos0, ReadSize(pos0, len, length)), false)
    {
      hide Used, Bytes, SameFile, PagesOk, ByteAt, ReadEnd, Sparse, ZeroTail, ReadSoFar, LacksMemory;
      SameItself(cache, disk);
      BytesAre(cache, disk, length);
      buf := [];
      ReadNothing(cache, disk, memory, pos0 / BLOCK);
      if pos0 >= length {
        return 0, buf;
      }
      var pos, rest := pos0, ReadSize(pos0, len, length);
      ghost var all, whole := Contents(), rest;
      var more := true;
      while more
        invariant
          && PagesOk(cache) && PagesOk(disk) && disk == old(disk) && hasIndirect == old(hasIndirect)
          && freeBlocks == old(freeBlocks)
        invariant 0 <= rest && pos + rest == pos0 + whole <= length && pos0 <= pos && |all| == length
        invariant buf == all[pos0..pos]
        invariant if more then pos < length && (rest == 0 ==> pos == pos0) && (pos > pos0 ==> pos % BLOCK == 0)
          else rest == 0
        invariant ReadSoFar(old(cache), old(disk), cache, disk, memory, pos0 / BLOCK,
                            if more then pos / BLOCK else ReadEnd(pos0, whole))
        decreases more, rest
      {
        var r := UsePage(pos, memory, old(cache), pos0);
        if r < 0 {
          PageInRead(pos0, whole, pos);
          IsLacking(old(cache), old(disk), memory, pos0, whole, pos / BLOCK);
          SamePages(old(cache), old(disk), cache, disk, length);
          SameTail(old(cache), old(disk), cache, disk, length);
          return r, buf;
        }
        var n := if pos % BLOCK + rest > BLOCK then BLOCK - pos % BLOCK else rest;
        PieceIs(cache, disk, old(cache), old(disk), length, pos, n);
        assert all[pos0..pos] + all[pos..pos + n] == all[pos0..pos + n];
        buf := buf + cache[pos / BLOCK][pos % BLOCK..pos % BLOCK + n];
        NextPage(pos0, whole, pos, rest, n);
        pos, rest := pos + n, rest - n;
        more := rest > 0;
      }
      NoneLacking(old(cache), old(disk), cache, disk, memory, pos0, whole);
      SamePages(old(cache), old(disk), cache, disk, length);
      SameTail(old(cache), old(disk), cache, disk, length);
      ret := |buf|;
    }

    /** The page of one round of a read. */
    method UsePage(pos: nat, memory: nat -> bool, ghost cache0: map<nat, Page>, ghost pos0: nat) returns (r: int)
      requires Shaped() && pos < length && PagesOk(cache0) && pos0 <= pos
      requires ReadSoFar(cache0, disk, cache, disk, memory, pos0 / BLOCK, pos / BLOCK)
      modifies this`cache, this`disk, this`hasIndirect, this`freeBlocks
      ensures Shaped() && disk == old(disk) && hasIndirect == old(hasIndirect) && freeBlocks == old(freeBlocks)
      ensures SameFile(cache0, disk, cache, disk)
      ensures r == if Sparse(cache0, disk, pos / BLOCK) && !memory(pos / BLOCK) then -ENOMEM else 0
      ensures r == 0 ==>
        && pos / BLOCK in cache && |cache[pos / BLOCK]| == BLOCK
        && ReadSoFar(cache0, disk, cache, disk, memory, pos0 / BLOCK, pos / BLOCK + 1)
    {
      BlockInRange(pos, 1);
      r := GetPage(pos / BLOCK, false, memory(pos / BLOCK));
    }

    /**
     * `s5fs_truncate_file`: the blocks and the cached pages that have one are dropped.  What lies behind
     * the new end is zero, as later writes rely on, if and only if no page that was cached without a
     * block held anything.  `listed` is the number of blocks that the super block lists.
     */
    method Truncate(listed: nat)
      requires Shaped() && listed <= S5Blocks.SLOTS
      modifies this
      ensures length == size == 0 && PagesOk(cache) && PagesOk(disk) && disk == map[] && Contents() == [] && Shaped()
      ensures forall k :: k in cache <==> k in old(cache) && k !in old(disk)
      ensures forall k :: k in cache ==> cache[k] == old(cache)[k]
      ensures freeBlocks
        == old(freeBlocks) + S5Blocks.Returned(|old(disk)| + if old(hasIndirect) then 1 else 0, listed)
      ensures Valid() <==> forall k :: k in old(cache) && k !in old(disk) ==> old(cache)[k] == Zeros(BLOCK)
    {
      length, size := 0, 0;
      freeBlocks := freeBlocks + S5Blocks.Returned(|disk| + if hasIndirect then 1 else 0, listed);
      ghost var was, blocks := cache, disk;
      cache := cache - disk.Keys;
      disk, hasIndirect := map[], false;
      LeftOver(was, blocks);
    }
  }

  /** The state that a write starts from. */
  datatype Start = Before(cache: map<nat, Page>, disk: map<nat, Page>, indirect: bool, free: nat)

  /** `data` has been written at `pos`, and exactly the blocks it needs have been taken. */
  ghost predicate Progress(was: Start, cache: map<nat, Page>, disk: map<nat, Page>, indirect: bool, free: nat, pos: nat,
                           data: seq<Byte>)
    requires PagesOk(was.cache) && PagesOk(was.disk) && PagesOk(cache) && PagesOk(disk)
  {
    && Done(was.cache, was.disk, cache, disk, pos, data)
    && free + Needs(was.cache, was.disk, was.indirect, pos / BLOCK, PagesEnd(pos, |data|)) == was.free
    && indirect == IndirectAfter(was.cache, was.indirect, pos / BLOCK, PagesEnd(pos, |data|))
  }

  lemma ProgressNone(was: Start, pos: nat, buf: seq<Byte>)
    requires PagesOk(was.cache) && PagesOk(was.disk)
    ensures Progress(was, was.cache, was.disk, was.indirect, was.free, pos, buf[..0])
  {
    hide PagesOk, Overwritten, Used, Done;
    NothingWritten(was.cache, was.disk, pos, buf);
    NeedsNone(was.cache, was.disk, was.indirect, pos / BLOCK);
  }

  lemma ProgressIs(was: Start, cache: map<nat, Page>, disk: map<nat, Page>, indirect: bool, free: nat, pos: nat,
                   data: seq<Byte>)
    requires PagesOk(was.cache) && PagesOk(was.disk) && PagesOk(cache) && PagesOk(disk)
    requires Progress(was, cache, disk, indirect, free, pos, data)
    ensures Done(was.cache, was.disk, cache, disk, pos, data)
    ensures free + Needs(was.cache, was.disk, was.indirect, pos / BLOCK, PagesEnd(pos, |data|)) == was.free
  {
  }

  /** What the next piece of a write takes, as part of what the whole write takes. */
  lemma PieceNeeds(c0: map<nat, Page>, d0: map<nat, Page>, i0: bool, c1: map<nat, Page>, d1: map<nat, Page>, i1: bool,
                   pos: nat, total: nat, n: nat, all: nat, data: seq<Byte>)
    requires PagesOk(c0) && PagesOk(d0) && PagesOk(c1) && PagesOk(d1)
    requires Done(c0, d0, c1, d1, pos, data) && |data| == total && n > 0 && total + n <= all
    requires PagesEnd(pos, total) == (pos + total) / BLOCK && PagesEnd(pos, total + n) == (pos + total) / BLOCK + 1
    requires i1 == IndirectAfter(c0, i0, pos / BLOCK, PagesEnd(pos, total))
    ensures var lo, k := pos / BLOCK, (pos + total) / BLOCK;
      && Needs(c0, d0, i0, lo, PagesEnd(pos, total + n))
         == Needs(c0, d0, i0, lo, PagesEnd(pos, total)) + PageNeeds(c1, d1, i1, k)
      && IndirectAfter(c0, i0, lo, PagesEnd(pos, total + n)) == (i1 || (k >= NDIRECT && k !in c1))
      && Needs(c0, d0, i0, lo, PagesEnd(pos, total + n)) <= Needs(c0, d0, i0, lo, PagesEnd(pos, all))
  {
    hide Needs, PageNeeds, IndirectAfter, PagesOk, Overwritten, Used;
    var lo, k := pos / BLOCK, (pos + total) / BLOCK;
    assert lo <= k && PagesEnd(pos, total + n) <= PagesEnd(pos, all);
    NeedsNext(c0, d0, i0, c1, d1, i1, lo, k);
    NeedsGrow(c0, d0, i0, lo, k + 1, PagesEnd(pos, all));
  }

  /** The pages `lo .. hi` have been used for reading, and there was memory for each. */
  ghost predicate ReadSoFar(c0: map<nat, Page>, d0: map<nat, Page>, c1: map<nat, Page>, d1: map<nat, Page>,
                            memory: nat -> bool, lo: nat, hi: nat) {
    && SameFile(c0, d0, c1, d1) && Used(c0, d0, c1, d1, lo, hi, false)
    && forall k: nat :: lo <= k < hi ==> !Sparse(c0, d0, k) || memory(k)
  }

  lemma ReadNothing(cache: map<nat, Page>, disk: map<nat, Page>, memory: nat -> bool, lo: nat)
    ensures ReadSoFar(cache, disk, cache, disk, memory, lo, lo) && Used(cache, disk, cache, disk, lo, lo, false)
  {
  }

  lemma IsLacking(cache: map<nat, Page>, disk: map<nat, Page>, memory: nat -> bool, pos: nat, n: nat, k: nat)
    requires pos / BLOCK <= k < ReadEnd(pos, n) && Sparse(cache, disk, k) && !memory(k)
    ensures LacksMemory(cache, disk, memory, pos, n, k)
  {
  }

  lemma NoneLacking(c0: map<nat, Page>, d0: map<nat, Page>, c1: map<nat, Page>, d1: map<nat, Page>,
                    memory: nat -> bool, pos: nat, n: nat)
    requires ReadSoFar(c0, d0, c1, d1, memory, pos / BLOCK, ReadEnd(pos, n))
    ensures SameFile(c0, d0, c1, d1) && Used(c0, d0, c1, d1, pos / BLOCK, ReadEnd(pos, n), false)
    ensures forall k :: !LacksMemory(c0, d0, memory, pos, n, k)
  {
  }

  lemma BlockInRange(pos: nat, n: nat)
    requires n > 0 && pos + n <= MAX_SIZE
    ensures pos / BLOCK < MAX_BLOCKS && pos / BLOCK * BLOCK <= pos < pos / BLOCK * BLOCK + BLOCK
  {
  }

  lemma BytesAre(cache: map<nat, Page>, disk: map<nat, Page>, n: nat)
    requires PagesOk(cache) && PagesOk(disk)
    ensures |Bytes(cache, disk, n)| == n
    ensures forall i :: 0 <= i < n ==> Bytes(cache, disk, n)[i] == ByteAt(cache, disk, i)
  {
  }

  lemma SameItself(cache: map<nat, Page>, disk: map<nat, Page>)
    ensures SameFile(cache, disk, cache, disk)
  {
  }

  lemma SameTwice(c0: map<nat, Page>, d0: map<nat, Page>, c1: map<nat, Page>, d1: map<nat, Page>, c2: map<nat, Page>,
                  d2: map<nat, Page>)
    requires SameFile(c0, d0, c1, d1) && SameFile(c1, d1, c2, d2)
    ensures SameFile(c0, d0, c2, d2)
  {
    hide PageOf;
  }

  lemma SameTail(cache: map<nat, Page>, disk: map<nat, Page>, cache': map<nat, Page>, disk': map<nat, Page>, n: nat)
    requires PagesOk(cache) && PagesOk(disk) && PagesOk(cache') && PagesOk(disk')
    requires forall i: nat :: ByteAt(cache', disk', i) == ByteAt(cache, disk, i)
    ensures ZeroTail(cache, disk, n) ==> ZeroTail(cache', disk', n)
  {
    hide ByteAt;
  }

  lemma SamePages(cache: map<nat, Page>, disk: map<nat, Page>, cache': map<nat, Page>, disk': map<nat, Page>, n: nat)
    requires PagesOk(cache) && PagesOk(disk) && PagesOk(cache') && PagesOk(disk')
    requires SameFile(cache, disk, cache', disk')
    ensures forall i: nat :: ByteAt(cache', disk', i) == ByteAt(cache, disk, i)
    ensures Bytes(cache', disk', n) == Bytes(cache, disk, n)
  {
  }

  /** How many bytes a read is for. */
  function ReadSize(pos: nat, len: nat, length: nat): nat {
    if pos >= length then 0 else if pos + len > length then length - pos else len
  }

  /** The page behind those that a read uses. */
  function ReadEnd(pos: nat, n: nat): nat {
    (pos + if n == 0 then 0 else n - 1) / BLOCK + 1
  }

  ghost predicate LacksMemory(cache: map<nat, Page>, disk: map<nat, Page>, memory: nat -> bool, pos: nat, n: nat,
                              k: nat)
  {
    pos / BLOCK <= k < ReadEnd(pos, n) && Sparse(cache, disk, k) && !memory(k)
  }

  lemma PageInRead(pos0: nat, whole: nat, pos: nat)
    requires pos0 <= pos && (pos < pos0 + whole || pos == pos0)
    ensures pos0 / BLOCK <= pos / BLOCK < ReadEnd(pos0, whole)
  {
  }

  lemma NextPage(pos0: nat, whole: nat, pos: nat, rest: nat, n: nat)
    requires pos0 <= pos && pos + rest == pos0 + whole && (rest == 0 ==> pos == pos0)
    requires (pos > pos0 ==> pos % BLOCK == 0)
    requires n == if pos % BLOCK + rest > BLOCK then BLOCK - pos % BLOCK else rest
    ensures if rest - n > 0 then n > 0 && (pos + n) / BLOCK == pos / BLOCK + 1 && (pos + n) % BLOCK == 0
      else ReadEnd(pos0, whole) == pos / BLOCK + 1
  {
  }

  /** Changing what a cached page holds. */
  lemma UsedAlike(c0: map<nat, Page>, d0: map<nat, Page>, c1: map<nat, Page>, c2: map<nat, Page>, d1: map<nat, Page>,
                  k: nat)
    requires Used(c0, d0, c1, d1, k, k + 1, true) && c1.Keys == c2.Keys
    ensures Used(c0, d0, c2, d1, k, k + 1, true)
  {
    assert forall j :: j in c1 <==> j in c1.Keys;
    assert forall j :: j in c2 <==> j in c2.Keys;
  }

  lemma NothingWritten(cache: map<nat, Page>, disk: map<nat, Page>, pos: nat, buf: seq<Byte>)
    requires PagesOk(cache) && PagesOk(disk)
    ensures Done(cache, disk, cache, disk, pos, buf[..0])
  {
  }

  lemma NotWritten(c0: map<nat, Page>, d0: map<nat, Page>, c1: map<nat, Page>, d1: map<nat, Page>, c2: map<nat, Page>,
                   d2: map<nat, Page>, pos: nat, a: seq<Byte>)
    requires PagesOk(c0) && PagesOk(d0) && PagesOk(c1) && PagesOk(d1) && PagesOk(c2) && PagesOk(d2)
    requires Overwritten(c0, d0, c1, d1, pos, a) && Overwritten(c1, d1, c2, d2, pos + |a|, [])
    ensures Overwritten(c0, d0, c2, d2, pos, a)
  {
  }

  /** Two writes in a row, the second where the first ended. */
  lemma WrittenOn(c0: map<nat, Page>, d0: map<nat, Page>, c1: map<nat, Page>, d1: map<nat, Page>, c2: map<nat, Page>,
                  d2: map<nat, Page>,
                  pos: nat, a: seq<Byte>, b: seq<Byte>)
    requires PagesOk(c0) && PagesOk(d0) && PagesOk(c1) && PagesOk(d1) && PagesOk(c2) && PagesOk(d2)
    requires Overwritten(c0, d0, c1, d1, pos, a) && Overwritten(c1, d1, c2, d2, pos + |a|, b)
    ensures Overwritten(c0, d0, c2, d2, pos, a + b)
  {
    hide ByteAt, PagesOk;
  }

  /** The bytes and the pages of a write so far. */
  ghost predicate Done(c0: map<nat, Page>, d0: map<nat, Page>, c1: map<nat, Page>, d1: map<nat, Page>, pos: nat,
                       data: seq<Byte>)
    requires PagesOk(c0) && PagesOk(d0) && PagesOk(c1) && PagesOk(d1)
  {
    Overwritten(c0, d0, c1, d1, pos, data) && Used(c0, d0, c1, d1, pos / BLOCK, PagesEnd(pos, |data|), true)
  }

  /** What the whole write has done. */
  lemma DoneIs(c0: map<nat, Page>, d0: map<nat, Page>, c1: map<nat, Page>, d1: map<nat, Page>, pos: nat,
               data: seq<Byte>, n: nat, n': nat)
    requires PagesOk(c0) && PagesOk(d0) && PagesOk(c1) && PagesOk(d1) && Done(c0, d0, c1, d1, pos, data)
    requires n' == if data != [] && pos + |data| > n then pos + |data| else n
    ensures Overwritten(c0, d0, c1, d1, pos, data) && Used(c0, d0, c1, d1, pos / BLOCK, PagesEnd(pos, |data|), true)
    ensures ZeroTail(c0, d0, n) ==> ZeroTail(c1, d1, n') && Bytes(c1, d1, n') == Splice(Bytes(c0, d0, n), pos, data)
  {
    hide PagesOk, Used, Overwritten, PagesEnd;
    WrittenIsSplice(c0, d0, c1, d1, pos, data, n, n');
  }

  lemma PagesStart(pos: nat)
    ensures PagesEnd(pos, 0) == pos / BLOCK
  {
  }

  /** One more piece of a write, or a failed attempt at it. */
  lemma DoneOn(c0: map<nat, Page>, d0: map<nat, Page>, c1: map<nat, Page>, d1: map<nat, Page>, c2: map<nat, Page>,
               d2: map<nat, Page>,
               pos: nat, buf: seq<Byte>, total: nat, n: nat, ok: bool)
    requires PagesOk(c0) && PagesOk(d0) && PagesOk(c1) && PagesOk(d1) && PagesOk(c2) && PagesOk(d2)
    requires total + n <= |buf|
    requires Done(c0, d0, c1, d1, pos, buf[..total]) && PagesEnd(pos, total) == (pos + total) / BLOCK
    requires PagesEnd(pos, total + n) == (pos + total) / BLOCK + 1
    requires Overwritten(c1, d1, c2, d2, pos + total, if ok then buf[total..total + n] else [])
    requires Used(c1, d1, c2, d2, (pos + total) / BLOCK,
                  if ok then (pos + total) / BLOCK + 1 else (pos + total) / BLOCK, true)
    ensures Done(c0, d0, c2, d2, pos, buf[..if ok then total + n else total])
  {
    hide PagesOk, Used, Overwritten, PagesEnd;
    var k := (pos + total) / BLOCK;
    assert pos / BLOCK <= k;
    UsedTwice(c0, d0, c1, d1, c2, d2, pos / BLOCK, k, if ok then k + 1 else k, true);
    if ok {
      assert buf[..total] + buf[total..total + n] == buf[..total + n];
      WrittenOn(c0, d0, c1, d1, c2, d2, pos, buf[..total], buf[total..total + n]);
    } else {
      NotWritten(c0, d0, c1, d1, c2, d2, pos, buf[..total]);
    }
  }

  /** One round of a write ends at a block boundary unless it is the last. */
  lemma PieceInRange(pos0: nat, total: nat, len: nat, n: nat, size: nat)
    requires len > 0 && total + len <= size && pos0 + total + len <= MAX_SIZE
    requires n == if (pos0 + total) % BLOCK + len > BLOCK then BLOCK - (pos0 + total) % BLOCK else len
    ensures 0 < n <= len && (pos0 + total) % BLOCK + n <= BLOCK
    ensures PagesEnd(pos0, total + n) == (pos0 + total) / BLOCK + 1
    ensures n < len ==> (pos0 + total + n) / BLOCK == (pos0 + total) / BLOCK + 1
    ensures pos0 % BLOCK + size <= BLOCK && total == 0 ==> n == len
  {
  }

  /** Where nothing is stored behind the end, an overwriting of bytes is a splice. */
  lemma WrittenIsSplice(cache: map<nat, Page>, disk: map<nat, Page>, cache': map<nat, Page>, disk': map<nat, Page>,
                        pos: nat, data: seq<Byte>, n: nat, n': nat)
    requires
      && PagesOk(cache) && PagesOk(disk) && PagesOk(cache') && PagesOk(disk')
      && Overwritten(cache, disk, cache', disk', pos, data)
    requires n' == if data != [] && pos + |data| > n then pos + |data| else n
    ensures ZeroTail(cache, disk, n) ==>
      ZeroTail(cache', disk', n') && Bytes(cache', disk', n') == Splice(Bytes(cache, disk, n), pos, data)
  {
    hide Splice, ByteAt, PagesOk;
    if ZeroTail(cache, disk, n) {
      var s, r := Bytes(cache, disk, n), Bytes(cache', disk', n');
      forall i | 0 <= i < n' ensures r[i] == Splice(s, pos, data)[i] {
        SpliceAt(s, pos, data, i);
        assert i >= n ==> ByteAt(cache, disk, i) == 0;
      }
    }
  }

  lemma WrittenByte(cache: map<nat, Page>, cache': map<nat, Page>, disk: map<nat, Page>, pos: nat, data: seq<Byte>,
                    i: nat)
    requires PagesOk(cache) && PagesOk(disk) && pos % BLOCK + |data| <= BLOCK && pos / BLOCK in cache && PagesOk(cache')
    requires var page, off := cache[pos / BLOCK], pos % BLOCK;
      cache' == cache[pos / BLOCK := page[..off] + data + page[off + |data|..]]
    ensures ByteAt(cache', disk, i) == if pos <= i < pos + |data| then data[i - pos] else ByteAt(cache, disk, i)
  {
    Positions(pos, i, |data|);
  }

  /** Inside one block, positions and offsets go together. */
  lemma Positions(pos: nat, i: nat, n: nat)
    requires pos % BLOCK + n <= BLOCK
    ensures i / BLOCK == pos / BLOCK ==> i % BLOCK - pos % BLOCK == i - pos
    ensures pos <= i < pos + n ==> i / BLOCK == pos / BLOCK
  {
  }

  lemma PieceIs(cache: map<nat, Page>, disk: map<nat, Page>, cache0: map<nat, Page>, disk0: map<nat, Page>, length: nat,
                pos: nat, n: nat)
    requires PagesOk(cache) && PagesOk(disk) && PagesOk(cache0) && PagesOk(disk0) && pos / BLOCK in cache
    requires SameFile(cache0, disk0, cache, disk)
    requires pos % BLOCK + n <= BLOCK && pos + n <= length
    ensures cache[pos / BLOCK][pos % BLOCK..pos % BLOCK + n] == Bytes(cache0, disk0, length)[pos..pos + n]
  {
    var a, b := cache[pos / BLOCK][pos % BLOCK..pos % BLOCK + n], Bytes(cache0, disk0, length)[pos..pos + n];
    assert PageOf(cache, disk, pos / BLOCK) == PageOf(cache0, disk0, pos / BLOCK);
    forall i | 0 <= i < n ensures a[i] == b[i] {
      Positions(pos, pos + i, n);
      assert b[i] == ByteAt(cache0, disk0, pos + i);
    }
  }

  lemma LeftOver(cache: map<nat, Page>, disk: map<nat, Page>)
    requires PagesOk(cache) && PagesOk(disk)
    ensures PagesOk(cache - disk.Keys)
    ensures ZeroTail(cache - disk.Keys, map[], 0) <==> forall k :: k in cache && k !in disk ==> cache[k] == Zeros(BLOCK)
  {
    var left := cache - disk.Keys;
    if ZeroTail(left, map[], 0) {
      forall k | k in cache && k !in disk ensures cache[k] == Zeros(BLOCK) {
        forall j | 0 <= j < BLOCK ensures cache[k][j] == 0 {
          assert (k * BLOCK + j) / BLOCK == k && (k * BLOCK + j) % BLOCK == j;
          assert ByteAt(left, map[], k * BLOCK + j) == 0;
        }
      }
    }
  }

  /**
   * A run that meets the failing case: a byte behind the first block, a read in the gap, and a write into the
   * page that is now cached without a block.
   */
  method SparseFile(freeBlocks: nat, b: Byte) returns (f: File)
    requires freeBlocks >= 2
    ensures fresh(f) && f.Valid() && f.length == BLOCK + 1
    ensures 0 in f.cache && 0 !in f.disk && ByteAt(f.cache, f.disk, 0) == b
  {
    hide Bytes, Splice, ZeroTail, PagesOk, ByteAt, Used, Overwritten;
    f := new File(freeBlocks);
    var r, buf;
    ghost var w;
    ghost var c, d := f.cache, f.disk;
    r, w := f.Write(BLOCK, [1]);
    assert [1][..w] == [1];
    UsedOne(c, d, f.cache, f.disk, BLOCK, true);
    assert 0 !in f.cache && 0 !in f.disk;
    c, d := f.cache, f.disk;
    r, buf := f.Read(0, 1, _ => true);
    UsedOne(c, d, f.cache, f.disk, 0, false);
    assert 0 in f.cache && 0 !in f.disk;
    c, d := f.cache, f.disk;
    r, w := f.Write(0, [b]);
    assert [b][..w] == [b];
    UsedOne(c, d, f.cache, f.disk, 0, true);
    WrittenOne(c, d, f.cache, f.disk, 0, b);
  }

  /**
   * Truncating that file leaves its first page in the cache: a later write of one byte at position 1 brings
   * `b` back at position 0, where a fresh gap should read as zero.
   */
  method StalePage(freeBlocks: nat, listed: nat, b: Byte) returns (buf: seq<Byte>)
    requires freeBlocks >= 2 && listed <= S5Blocks.SLOTS && b != 0
    ensures buf == [b, 5] != Splice([], 1, [5])
  {
    hide Bytes, ZeroTail, PagesOk, ByteAt, Used, Overwritten, Splice, Needs, S5Blocks.Returned;
    var f := SparseFile(freeBlocks, b);
    ghost var c, d := f.cache, f.disk;
    f.Truncate(listed);
    ByteKept(c, d, f.cache, f.disk, 0);
    buf := SecondByte(f);
    GapIsZero(b);
  }

  /** One byte at position 1 of an empty file whose first page is cached, and both bytes read. */
  method SecondByte(f: File) returns (buf: seq<Byte>)
    requires f.Shaped() && f.length == 0 && 0 in f.cache
    modifies f
    ensures PagesOk(old(f.cache)) && PagesOk(old(f.disk)) && buf == [ByteAt(old(f.cache), old(f.disk), 0), 5]
  {
    hide Bytes, ZeroTail, PagesOk, ByteAt, Used, Overwritten, Splice, Needs;
    var r;
    ghost var w;
    ghost var c, d := f.cache, f.disk;
    NeedsCached(c, d, f.hasIndirect);
    r, w := f.Write(1, [5]);
    assert [5][..w] == [5];
    WrittenOne(c, d, f.cache, f.disk, 1, 5);
    BytesAre(f.cache, f.disk, 2);
    r, buf := f.Read(0, 2, _ => true);
  }

  lemma NeedsCached(cache: map<nat, Page>, disk: map<nat, Page>, hasIndirect: bool)
    requires 0 in cache
    ensures Needs(cache, disk, hasIndirect, 1 / BLOCK, PagesEnd(1, Clipped(1, 1))) == 0
  {
    assert PagesEnd(1, 1) == 1;
    NeedsNone(cache, disk, hasIndirect, 0);
  }

  lemma GapIsZero(b: Byte)
    requires b != 0
    ensures Splice([], 1, [5]) != [b, 5]
  {
    assert Splice([], 1, [5])[0] == 0;
  }

  lemma ByteKept(c: map<nat, Page>, d: map<nat, Page>, c': map<nat, Page>, d': map<nat, Page>, i: nat)
    requires
      && PagesOk(c) && PagesOk(d) && PagesOk(c') && PagesOk(d') && i / BLOCK in c && i / BLOCK in c'
      && c'[i / BLOCK] == c[i / BLOCK]
    ensures ByteAt(c', d', i) == ByteAt(c, d, i)
  {
  }

  /** A write or a read of one byte uses one page. */
  lemma UsedOne(c: map<nat, Page>, d: map<nat, Page>, c': map<nat, Page>, d': map<nat, Page>, pos: nat, forWrite: bool)
    requires Used(c, d, c', d', pos / BLOCK, PagesEnd(pos, 1), forWrite)
    ensures pos / BLOCK in c' && (pos / BLOCK in d' <==> pos / BLOCK in d || (forWrite && pos / BLOCK !in c))
    ensures forall k: nat :: k != pos / BLOCK ==> (k in c' <==> k in c) && (k in d' <==> k in d)
  {
  }

  lemma WrittenOne(c: map<nat, Page>, d: map<nat, Page>, c': map<nat, Page>, d': map<nat, Page>, pos: nat, b: Byte)
    requires PagesOk(c) && PagesOk(d) && PagesOk(c') && PagesOk(d') && Overwritten(c, d, c', d', pos, [b])
    ensures forall i: nat :: ByteAt(c', d', i) == if i == pos then b else ByteAt(c, d, i)
  {
  }
}
