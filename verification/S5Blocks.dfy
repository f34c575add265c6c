/**
 * The blocks of an S5 disk as the kernel handles them: a chain of free blocks, the direct and
 * indirect blocks of every inode, and the blocks whose frames are resident in the object of
 * the file system itself.
 */
module S5Blocks {
  const NBLKS_PER_FNODE := 30
  const SLOTS := NBLKS_PER_FNODE - 1
  const NDIRECT := 28
  const NINDIRECT := 1024
  const NONE := 0xffff_ffff
  const EINVAL := 22
  const ENOSPC := 28

  type BlockNo = nat
  type Ino = nat
  type Words = seq<nat>
  type Meta = map<BlockNo, Words>

  /** The block pointers of an inode; 0 stands for no block. */
  datatype Inode = Inode(direct: seq<BlockNo>, indirect: BlockNo)

  type Inodes = map<Ino, Inode>

  // ------------------------------------------------------------ how often a block is referred to

  function Times(s: seq<BlockNo>, b: BlockNo): nat {
    if s == [] then 0 else Times(s[..|s| - 1], b) + if s[|s| - 1] == b then 1 else 0
  }

  /** By an inode: its direct pointers, its indirect pointer, and the pointers in its indirect block. */
  function Owned(i: Inode, meta: Meta, b: BlockNo): nat {
    Times(i.direct, b) +
    if i.indirect == 0 then 0
    else (if i.indirect == b then 1 else 0) + if i.indirect in meta then Times(meta[i.indirect], b) else 0
  }

  function OwnedOf(inodes: Inodes, meta: Meta, i: Ino, b: BlockNo): nat {
    if i in inodes then Owned(inodes[i], meta, b) else 0
  }

  function OwnedBelow(inodes: Inodes, meta: Meta, n: nat, b: BlockNo): nat {
    if n == 0 then 0 else OwnedBelow(inodes, meta, n - 1, b) + OwnedOf(inodes, meta, n - 1, b)
  }

  /** The nodes of the free chain from `last` on. */
  ghost predicate IsChain(meta: Meta, last: nat, chain: seq<BlockNo>)
    decreases |chain|
  {
    if chain == [] then last == NONE
    else last == chain[0] && last in meta && |meta[last]| == NINDIRECT && IsChain(meta, meta[last][SLOTS], chain[1..])
  }

  /** By the lists in those nodes. */
  function Listed(meta: Meta, chain: seq<BlockNo>, b: BlockNo): nat {
    if chain == [] then 0
    else Listed(meta, chain[1..], b) + if chain[0] in meta && |meta[chain[0]]|
      == NINDIRECT then Times(meta[chain[0]][..SLOTS], b) else 0
  }

  lemma {:induction false} TimesAppend(s: seq<BlockNo>, x: BlockNo, b: BlockNo)
    ensures Times(s + [x], b) == Times(s, b) + if x == b then 1 else 0
  {
    assert (s + [x])[..|s|] == s;
  }

  lemma {:induction false} TimesPut(s: seq<BlockNo>, k: nat, x: BlockNo, b: BlockNo)
    requires k < |s|
    ensures Times(s[k := x], b) == Times(s, b) - (if s[k] == b then 1 else 0) + if x == b then 1 else 0
  {
    var n := |s| - 1;
    if k < n {
      TimesPut(s[..n], k, x, b);
      assert s[k := x][..n] == s[..n][k := x];
    } else {
      assert s[k := x][..n] == s[..n];
    }
  }

  lemma {:induction false} TimesIn(s: seq<BlockNo>, b: BlockNo)
    ensures Times(s, b) > 0 <==> b in s
  {
    if s != [] {
      TimesIn(s[..|s| - 1], b);
      assert s == s[..|s| - 1] + [s[|s| - 1]];
    }
  }

  lemma {:induction false} ChainFrame(meta: Meta, meta': Meta, last: nat, chain: seq<BlockNo>)
    requires IsChain(meta, last, chain) && forall b :: b in chain && b in meta ==> b in meta' && meta'[b] == meta[b]
    ensures IsChain(meta', last, chain) && forall b :: Listed(meta', chain, b) == Listed(meta, chain, b)
    decreases |chain|
  {
    if chain != [] {
      ChainFrame(meta, meta', meta[last][SLOTS], chain[1..]);
    }
  }

  /** Changing one inode, or a block that no other inode uses as its indirect block. */
  lemma {:induction false} OwnedChange(inodes: Inodes, meta: Meta, inodes': Inodes, meta': Meta, n: nat, i: Ino,
                                       b: BlockNo)
    requires forall j :: j != i ==> OwnedOf(inodes', meta', j, b) == OwnedOf(inodes, meta, j, b)
    ensures OwnedBelow(inodes', meta', n, b) == OwnedBelow(inodes, meta, n, b)
      + if i < n then OwnedOf(inodes', meta', i, b) - OwnedOf(inodes, meta, i, b) else 0
  {
    hide OwnedOf;
    if n > 0 {
      OwnedChange(inodes, meta, inodes', meta', n - 1, i, b);
    }
  }

  lemma {:induction false} OwnedPart(inodes: Inodes, meta: Meta, n: nat, i: Ino, b: BlockNo)
    requires i < n
    ensures OwnedOf(inodes, meta, i, b) <= OwnedBelow(inodes, meta, n, b)
  {
    hide OwnedOf;
    if i < n - 1 {
      OwnedPart(inodes, meta, n - 1, i, b);
    }
  }

  /** References from two inodes are counted apart. */
  lemma {:induction false} OwnedTwo(inodes: Inodes, meta: Meta, n: nat, i: Ino, j: Ino, b: BlockNo)
    requires i < n && j < n && i != j
    ensures OwnedOf(inodes, meta, i, b) + OwnedOf(inodes, meta, j, b) <= OwnedBelow(inodes, meta, n, b)
  {
    hide OwnedOf;
    if i == n - 1 {
      OwnedPart(inodes, meta, n - 1, j, b);
    } else if j == n - 1 {
      OwnedPart(inodes, meta, n - 1, i, b);
    } else {
      OwnedTwo(inodes, meta, n - 1, i, j, b);
    }
  }

  // ------------------------------------------------------------------ the invariant

  /** The super block's free list: `nfree` numbers in `slots`, then the chain. */
  datatype Super = Super(nfree: nat, slots: Words, last: nat)

  datatype Disk = Disk(super: Super, meta: Meta, inodes: Inodes, resident: set<BlockNo>)

  /** A block that can be handed out: in the super block, or listed in a node. */
  function Available(d: Disk, chain: seq<BlockNo>, b: BlockNo): nat {
    Listed(d.meta, chain, b) + if d.super.nfree <= |d.super.slots| then Times(d.super.slots[..d.super.nfree], b) else 0
  }

  /** All the places that refer to a block: nodes, lists, inodes, and the caller who has it in hand. */
  function Places(d: Disk, chain: seq<BlockNo>, n: nat, hand: seq<BlockNo>, b: BlockNo): nat {
    Times(chain, b) + Available(d, chain, b) + OwnedBelow(d.inodes, d.meta, n, b) + Times(hand, b)
  }

  ghost predicate Shaped(d: Disk, chain: seq<BlockNo>, n: nat) {
    && d.super.nfree <= SLOTS && |d.super.slots| == SLOTS && IsChain(d.meta, d.super.last, chain)
    && (forall b :: b in d.meta ==> |d.meta[b]| == NINDIRECT)
    && (forall i :: i in d.inodes ==>
         i < n && |d.inodes[i].direct| == NDIRECT && (d.inodes[i].indirect != 0 ==> d.inodes[i].indirect in d.meta))
  }

  /** No block is referred to twice; 0 and -1 are no blocks; what can be handed out is not resident. */
  ghost predicate Sound(d: Disk, chain: seq<BlockNo>, n: nat, hand: seq<BlockNo>) {
    && Shaped(d, chain, n)
    && (forall b :: b != 0 ==> Places(d, chain, n, hand, b) <= 1)
    && Places0(d, chain, hand) && Places(d, chain, n, hand, NONE) == 0
    && (forall b :: b in d.resident ==> Available(d, chain, b) == 0)
  }

  /** 0 occurs only as an empty pointer of an inode or of an indirect block. */
  ghost predicate Places0(d: Disk, chain: seq<BlockNo>, hand: seq<BlockNo>) {
    Times(chain, 0) + Available(d, chain, 0) + Times(hand, 0) == 0
  }

  lemma {:induction false} TimesConcat(s: seq<BlockNo>, t: seq<BlockNo>, b: BlockNo)
    ensures Times(s + t, b) == Times(s, b) + Times(t, b)
    decreases |t|
  {
    if t == [] {
      assert s + t == s;
    } else {
      var n := |t| - 1;
      assert s + t == (s + t[..n]) + [t[n]];
      TimesConcat(s, t[..n], b);
      TimesAppend(s + t[..n], t[n], b);
    }
  }

  lemma TimesOne(x: BlockNo, b: BlockNo)
    ensures Times([x], b) == if x == b then 1 else 0
  {
    TimesAppend([], x, b);
    assert [] + [x] == [x];
  }

  // --------------------------------------------------------------- taking a block

  /** A block that is in the chain, or some inode's indirect block, is referred to there. */
  lemma UsedThere(d: Disk, chain: seq<BlockNo>, n: nat, hand: seq<BlockNo>, b: BlockNo)
    requires Sound(d, chain, n, hand) && b != 0
    ensures b in hand || Available(d, chain, b) > 0 ==>
      b !in chain && forall i :: i in d.inodes ==> d.inodes[i].indirect != b
  {
    hide Available, Times, Owned, OwnedBelow;
    TimesIn(chain, b);
    TimesIn(hand, b);
    assert Places(d, chain, n, hand, b) <= 1;
    forall i | i in d.inodes ensures d.inodes[i].indirect == b ==> OwnedBelow(d.inodes, d.meta, n, b) >= 1 {
      OwnedPart(d.inodes, d.meta, n, i, b);
      IndirectOwned(d.inodes[i], d.meta, b);
    }
  }

  lemma IndirectOwned(i: Inode, meta: Meta, b: BlockNo)
    ensures i.indirect == b && b != 0 ==> Owned(i, meta, b) >= 1
  {
  }

  function Popped(d: Disk): Disk
    requires d.super.nfree > 0
  {
    d.(super := d.super.(nfree := d.super.nfree - 1))
  }

  lemma PopSound(d: Disk, chain: seq<BlockNo>, n: nat)
    requires Sound(d, chain, n, []) && d.super.nfree > 0
    ensures var b := d.super.slots[d.super.nfree - 1];
      Sound(Popped(d), chain, n, [b]) && Available(d, chain, b) > 0 && b !in d.resident && b != 0 && b != NONE
  {
    hide Listed, OwnedBelow, IsChain;
    var b, k := d.super.slots[d.super.nfree - 1], d.super.nfree;
    assert d.super.slots[..k] == d.super.slots[..k - 1] + [b];
    forall x ensures Places(Popped(d), chain, n, [b], x) == Places(d, chain, n, [], x)
      && Available(Popped(d), chain, x) == Available(d, chain, x) - (if x == b then 1 else 0)
    {
      TimesAppend(d.super.slots[..k - 1], b, x);
      TimesOne(b, x);
    }
    assert Available(d, chain, b) > 0;
    assert Places(d, chain, n, [], NONE) == 0;
    assert Times([], 0) == 0;
    TimesOne(b, 0);
  }

  /** The refill: the next node's list comes into the super block, and the node itself is dropped. */
  function Refilled(d: Disk): Disk
    requires d.super.last in d.meta && |d.meta[d.super.last]| == NINDIRECT
  {
    var w := d.meta[d.super.last];
    d.(super := Super(SLOTS, w[..SLOTS], w[SLOTS]), resident := d.resident + {d.super.last})
  }

  lemma RefillSound(d: Disk, chain: seq<BlockNo>, n: nat)
    requires Sound(d, chain, n, []) && d.super.nfree == 0 && chain != []
    ensures d.super.last == chain[0] && d.super.last in d.meta && |d.meta[d.super.last]| == NINDIRECT
    ensures Sound(Refilled(d), chain[1..], n, [])
  {
    hide OwnedBelow;
    var d', rest, c := Refilled(d), chain[1..], chain[0];
    assert d'.super.slots[..SLOTS] == d'.super.slots && d.super.slots[..0] == [];
    forall x
      ensures Available(d', rest, x) == Available(d, chain, x)
      ensures Times(chain, x) == Times(rest, x) + if x == c then 1 else 0
    {
      assert chain == [c] + rest;
      TimesConcat([c], rest, x);
      TimesOne(c, x);
    }
    assert Places(d, chain, n, [], c) <= 1;
    assert forall x :: Places(d', rest, n, [], x) <= Places(d, chain, n, [], x);
  }

  // -------------------------------------------------------------- giving a block back

  /** Into the next slot; a resident frame of the block is dropped. */
  function Pushed(d: Disk, b: BlockNo): Disk
    requires d.super.nfree < |d.super.slots|
  {
    d.(super := d.super.(slots := d.super.slots[d.super.nfree := b], nfree := d.super.nfree + 1),
       resident := d.resident - {b})
  }

  lemma PushSound(d: Disk, chain: seq<BlockNo>, n: nat, hand: seq<BlockNo>, b: BlockNo)
    requires Sound(d, chain, n, [b] + hand) && d.super.nfree < SLOTS
    ensures Sound(Pushed(d, b), chain, n, hand)
  {
    hide Listed, OwnedBelow, IsChain;
    var k := d.super.nfree;
    assert Pushed(d, b).super.slots[..k + 1] == d.super.slots[..k] + [b];
    forall x ensures Places(Pushed(d, b), chain, n, hand, x) == Places(d, chain, n, [b] + hand, x)
      && Available(Pushed(d, b), chain, x) == Available(d, chain, x) + (if x == b then 1 else 0)
      && Times([b] + hand, x) == Times(hand, x) + if x == b then 1 else 0
    {
      TimesAppend(d.super.slots[..k], b, x);
      TimesConcat([b], hand, x);
      TimesOne(b, x);
    }
  }

  /** The block becomes a node that takes over the full list. */
  function Spilled(d: Disk, b: BlockNo, tail: Words): Disk {
    d.(super := Super(0, d.super.slots, b), meta := d.meta[b := d.super.slots + [d.super.last] + tail],
       resident := d.resident + {b})
  }

  /** Writing a block that no chain node and no inode's indirect pointer refers to. */
  lemma MetaFrame(d: Disk, chain: seq<BlockNo>, n: nat, b: BlockNo, w: Words)
    requires Shaped(d, chain, n) && b !in chain && (forall i :: i in d.inodes ==> d.inodes[i].indirect != b)
    ensures var meta' := d.meta[b := w];
      && IsChain(meta', d.super.last, chain) && (forall x :: Listed(meta', chain, x) == Listed(d.meta, chain, x))
      && forall x :: OwnedBelow(d.inodes, meta', n, x) == OwnedBelow(d.inodes, d.meta, n, x)
  {
    hide Times;
    var meta' := d.meta[b := w];
    ChainFrame(d.meta, meta', d.super.last, chain);
    forall x ensures OwnedBelow(d.inodes, meta', n, x) == OwnedBelow(d.inodes, d.meta, n, x) {
      OwnedChange(d.inodes, d.meta, d.inodes, meta', n, n, x);
    }
  }

  /** A block in hand may be written. */
  lemma WriteSound(d: Disk, chain: seq<BlockNo>, n: nat, hand: seq<BlockNo>, b: BlockNo, w: Words)
    requires Sound(d, chain, n, hand) && b in hand && |w| == NINDIRECT
    ensures Sound(d.(meta := d.meta[b := w]), chain, n, hand)
  {
    hide OwnedBelow, Times, Listed, IsChain;
    TimesIn(hand, b);
    UsedThere(d, chain, n, hand, b);
    MetaFrame(d, chain, n, b, w);
    var d' := d.(meta := d.meta[b := w]);
    assert forall x :: Available(d', chain, x) == Available(d, chain, x);
    assert forall x :: Places(d', chain, n, hand, x) == Places(d, chain, n, hand, x);
  }

  lemma SpillSound(d: Disk, chain: seq<BlockNo>, n: nat, hand: seq<BlockNo>, b: BlockNo, tail: Words)
    requires Sound(d, chain, n, [b] + hand) && d.super.nfree == SLOTS && |tail| == NINDIRECT - NBLKS_PER_FNODE
    ensures Sound(Spilled(d, b, tail), [b] + chain, n, hand)
  {
    hide OwnedBelow, Times;
    var w := d.super.slots + [d.super.last] + tail;
    WriteSound(d, chain, n, [b] + hand, b, w);
    var d1, d' := d.(meta := d.meta[b := w]), Spilled(d, b, tail);
    assert ([b] + chain)[1..] == chain && w[..SLOTS] == d.super.slots && d.super.slots[..SLOTS] == d.super.slots
           && w[SLOTS] == d.super.last;
    forall x ensures Available(d', [b] + chain, x) == Available(d1, chain, x)
      && Times([b] + chain, x) == Times(chain, x) + (if x == b then 1 else 0)
      && Times([b] + hand, x) == Times(hand, x) + if x == b then 1 else 0
    {
      TimesConcat([b], hand, x);
      TimesConcat([b], chain, x);
      TimesOne(b, x);
      TimesNone(x);
      assert d'.super.slots[..0] == [];
    }
    assert Places(d1, chain, n, [b] + hand, b) <= 1;
    assert forall x :: Places(d', [b] + chain, n, hand, x) == Places(d1, chain, n, [b] + hand, x);
  }

  lemma TimesNone(b: BlockNo)
    ensures Times([], b) == 0
  {
  }

  // ------------------------------------------------- between an inode and the hand

  /** Blocks may pass between an inode and the hand as long as none is lost or doubled. */
  lemma HandedSound(d: Disk, chain: seq<BlockNo>, n: nat, hand: seq<BlockNo>, i: Ino, ino: Inode, hand': seq<BlockNo>)
    requires Sound(d, chain, n, hand) && i in d.inodes && Times(hand', 0) == 0
    requires |ino.direct| == NDIRECT && (ino.indirect != 0 ==> ino.indirect in d.meta)
    requires forall x ::
      x != 0 ==> Owned(ino, d.meta, x) + Times(hand', x) == Owned(d.inodes[i], d.meta, x) + Times(hand, x)
    ensures Sound(d.(inodes := d.inodes[i := ino]), chain, n, hand')
  {
    hide Owned, Times, Listed, IsChain;
    var d' := d.(inodes := d.inodes[i := ino]);
    forall x | x != 0 ensures Places(d', chain, n, hand', x) == Places(d, chain, n, hand, x) {
      OwnedChange(d.inodes, d.meta, d'.inodes, d'.meta, n, i, x);
    }
    assert forall x :: Available(d', chain, x) == Available(d, chain, x);
  }

  lemma ResidentSound(d: Disk, chain: seq<BlockNo>, n: nat, hand: seq<BlockNo>, c: BlockNo)
    requires Sound(d, chain, n, hand) && Available(d, chain, c) == 0
    ensures Sound(d.(resident := d.resident + {c}), chain, n, hand)
  {
    hide Times, Listed, IsChain, OwnedBelow;
    var d' := d.(resident := d.resident + {c});
    assert forall x :: Available(d', chain, x) == Available(d, chain, x);
    assert forall x :: Places(d', chain, n, hand, x) == Places(d, chain, n, hand, x);
  }

  /** The pointers that are set. */
  function NonZero(s: seq<BlockNo>): seq<BlockNo> {
    if s == [] then [] else (if s[0] == 0 then [] else [s[0]]) + NonZero(s[1..])
  }

  lemma {:induction false} TimesNonZero(s: seq<BlockNo>, b: BlockNo)
    ensures Times(NonZero(s), b) == if b == 0 then 0 else Times(s, b)
  {
    if s != [] {
      assert s == [s[0]] + s[1..];
      TimesNonZero(s[1..], b);
      TimesConcat([s[0]], s[1..], b);
      TimesOne(s[0], b);
      TimesConcat(if s[0] == 0 then [] else [s[0]], NonZero(s[1..]), b);
    }
  }

  function Zeros(n: nat): Words {
    seq(n, _ => 0)
  }

  lemma {:induction false} TimesZeros(n: nat, b: BlockNo)
    ensures b != 0 ==> Times(Zeros(n), b) == 0
  {
    if n > 0 {
      TimesZeros(n - 1, b);
      assert Zeros(n)[..n - 1] == Zeros(n - 1);
    }
  }

  /** A new direct pointer. */
  lemma DirectSound(d: Disk, chain: seq<BlockNo>, n: nat, i: Ino, k: nat, b: BlockNo)
    requires
      && Sound(d, chain, n, [b]) && i in d.inodes && k < NDIRECT && |d.inodes[i].direct| == NDIRECT
      && d.inodes[i].direct[k] == 0
    ensures Sound(d.(inodes := d.inodes[i := d.inodes[i].(direct := d.inodes[i].direct[k := b])]), chain, n, [])
  {
    hide Sound, Times;
    var ino := d.inodes[i];
    forall x | x != 0
      ensures Owned(ino.(direct := ino.direct[k := b]), d.meta, x) + Times([], x)
        == Owned(ino, d.meta, x) + Times([b], x)
    {
      TimesPut(ino.direct, k, b, x);
      TimesOne(b, x);
      TimesNone(x);
    }
    TimesNone(0);
    SoundShape(d, chain, n, [b], i);
    HandedSound(d, chain, n, [b], i, ino.(direct := ino.direct[k := b]), []);
  }

  lemma SoundShape(d: Disk, chain: seq<BlockNo>, n: nat, hand: seq<BlockNo>, i: Ino)
    requires Sound(d, chain, n, hand) && i in d.inodes
    ensures
      && |d.inodes[i].direct| == NDIRECT
      && (d.inodes[i].indirect != 0 ==> d.inodes[i].indirect in d.meta && |d.meta[d.inodes[i].indirect]| == NINDIRECT)
    ensures d.inodes[i].indirect != 0 ==> Available(d, chain, d.inodes[i].indirect) == 0
  {
    hide Times, Listed, IsChain, Available, Owned, OwnedBelow;
    var c := d.inodes[i].indirect;
    if c != 0 {
      assert Places(d, chain, n, hand, c) <= 1;
      OwnedPart(d.inodes, d.meta, n, i, c);
      IndirectOwned(d.inodes[i], d.meta, c);
    }
  }

  /** A new, cleared indirect block. */
  function WithIndirect(d: Disk, i: Ino, b: BlockNo): Disk
    requires i in d.inodes
  {
    d.(inodes := d.inodes[i := d.inodes[i].(indirect := b)], meta := d.meta[b := Zeros(NINDIRECT)],
       resident := d.resident + {b})
  }

  lemma IndirectSound(d: Disk, chain: seq<BlockNo>, n: nat, i: Ino, b: BlockNo)
    requires Sound(d, chain, n, [b]) && i in d.inodes && d.inodes[i].indirect == 0 && Available(d, chain, b) == 0
    ensures Sound(WithIndirect(d, i, b), chain, n, [])
  {
    hide Sound, Times, Available;
    var ino := d.inodes[i];
    SoundShape(d, chain, n, [b], i);
    ResidentSound(d, chain, n, [b], b);
    var d1 := d.(resident := d.resident + {b});
    WriteSound(d1, chain, n, [b], b, Zeros(NINDIRECT));
    var d2 := d1.(meta := d1.meta[b := Zeros(NINDIRECT)]);
    forall x | x != 0
      ensures Owned(ino.(indirect := b), d2.meta, x) + Times([], x) == Owned(ino, d2.meta, x) + Times([b], x)
    {
      TimesZeros(NINDIRECT, x);
      TimesOne(b, x);
      TimesNone(x);
      NotZero(d, chain, n, b);
    }
    TimesNone(0);
    HandedSound(d2, chain, n, [b], i, ino.(indirect := b), []);
  }

  lemma NotZero(d: Disk, chain: seq<BlockNo>, n: nat, b: BlockNo)
    requires Sound(d, chain, n, [b])
    ensures b != 0 && Available(d, chain, b) == 0
  {
    hide Listed, Available, OwnedBelow, Times;
    TimesOne(b, b);
    assert Places(d, chain, n, [b], b) <= 1 || b == 0;
  }

  // ------------------------------------------- taking an inode's blocks out of it

  lemma DirectsOut(d: Disk, chain: seq<BlockNo>, n: nat, i: Ino)
    requires Sound(d, chain, n, []) && i in d.inodes
    ensures var cleared := d.inodes[i].(direct := Zeros(NDIRECT));
      Sound(d.(inodes := d.inodes[i := cleared]), chain, n, NonZero(d.inodes[i].direct))
  {
    hide Sound, Times, NonZero;
    var ino := d.inodes[i];
    SoundShape(d, chain, n, [], i);
    forall x | x != 0
      ensures Owned(ino.(direct := Zeros(NDIRECT)), d.meta, x) + Times(NonZero(ino.direct), x)
          == Owned(ino, d.meta, x) + Times([], x)
    {
      TimesZeros(NDIRECT, x);
      TimesNonZero(ino.direct, x);
      TimesNone(x);
    }
    TimesNonZero(ino.direct, 0);
    HandedSound(d, chain, n, [], i, ino.(direct := Zeros(NDIRECT)), NonZero(ino.direct));
  }

  lemma IndirectOut(d: Disk, chain: seq<BlockNo>, n: nat, hand: seq<BlockNo>, i: Ino)
    requires Sound(d, chain, n, hand) && i in d.inodes && d.inodes[i].indirect != 0 && d.inodes[i].indirect in d.meta
    ensures var c := d.inodes[i].indirect;
      Sound(d.(inodes := d.inodes[i := d.inodes[i].(indirect := 0)]), chain, n, NonZero(d.meta[c]) + ([c] + hand))
  {
    hide Sound, Times, NonZero;
    var ino, c := d.inodes[i], d.inodes[i].indirect;
    SoundShape(d, chain, n, hand, i);
    forall x
      ensures Times(NonZero(d.meta[c]) + ([c] + hand), x)
          == Times(NonZero(d.meta[c]), x) + (if x == c then 1 else 0) + Times(hand, x)
    {
      TimesConcat(NonZero(d.meta[c]), [c] + hand, x);
      TimesConcat([c], hand, x);
      TimesOne(c, x);
    }
    forall x | x != 0
      ensures Owned(ino.(indirect := 0), d.meta, x) + Times(NonZero(d.meta[c]) + ([c] + hand), x)
          == Owned(ino, d.meta, x) + Times(hand, x)
    {
      TimesNonZero(d.meta[c], x);
    }
    TimesNonZero(d.meta[c], 0);
    HandIsNotZero(d, chain, n, hand);
    HandedSound(d, chain, n, hand, i, ino.(indirect := 0), NonZero(d.meta[c]) + ([c] + hand));
  }

  lemma HandIsNotZero(d: Disk, chain: seq<BlockNo>, n: nat, hand: seq<BlockNo>)
    requires Sound(d, chain, n, hand)
    ensures Times(hand, 0) == 0
  {
  }

  lemma IndirectIn(d: Disk, chain: seq<BlockNo>, n: nat, i: Ino, c: BlockNo)
    requires c != 0 && c in d.meta && |d.meta[c]| == NINDIRECT && i in d.inodes && d.inodes[i].indirect == 0
    requires Sound(d, chain, n, NonZero(d.meta[c]) + [c])
    ensures Sound(d.(inodes := d.inodes[i := d.inodes[i].(indirect := c)]), chain, n, [])
  {
    hide Sound, Times, NonZero;
    var ino, hand := d.inodes[i], NonZero(d.meta[c]) + [c];
    SoundShape(d, chain, n, hand, i);
    forall x | x != 0
      ensures Owned(ino.(indirect := c), d.meta, x) + Times([], x) == Owned(ino, d.meta, x) + Times(hand, x)
    {
      TimesConcat(NonZero(d.meta[c]), [c], x);
      TimesOne(c, x);
      TimesNonZero(d.meta[c], x);
      TimesNone(x);
    }
    TimesNone(0);
    HandedSound(d, chain, n, hand, i, ino.(indirect := c), []);
  }

  /** A set of blocks in hand matters only through how often each is in it. */
  lemma SameHand(d: Disk, chain: seq<BlockNo>, n: nat, hand: seq<BlockNo>, hand': seq<BlockNo>)
    requires Sound(d, chain, n, hand) && forall x :: Times(hand', x) == Times(hand, x)
    ensures Sound(d, chain, n, hand')
  {
    hide Times, Available, OwnedBelow, Shaped;
    assert forall x :: Places(d, chain, n, hand', x) == Places(d, chain, n, hand, x);
  }

  /** A new pointer in the indirect block. */
  function WithEntry(d: Disk, c: BlockNo, k: nat, b: BlockNo): Disk
    requires c in d.meta && k < |d.meta[c]|
  {
    var w: Words := d.meta[c][k := b];
    d.(meta := d.meta[c := w])
  }

  lemma EntrySound(d: Disk, chain: seq<BlockNo>, n: nat, i: Ino, k: nat, b: BlockNo)
    requires Sound(d, chain, n, [b]) && i in d.inodes && d.inodes[i].indirect != 0 && d.inodes[i].indirect in d.meta
    requires k < |d.meta[d.inodes[i].indirect]| == NINDIRECT && d.meta[d.inodes[i].indirect][k] == 0
    ensures Sound(WithEntry(d, d.inodes[i].indirect, k, b), chain, n, [])
  {
    hide Sound, Times, NonZero, Owned;
    var ino, c := d.inodes[i], d.inodes[i].indirect;
    var w: Words := d.meta[c][k := b];
    var hand := NonZero(d.meta[c]) + ([c] + [b]);
    NotZero(d, chain, n, b);
    IndirectOut(d, chain, n, [b], i);
    var d1 := d.(inodes := d.inodes[i := ino.(indirect := 0)]);
    assert hand[|NonZero(d.meta[c])|] == c;
    WriteSound(d1, chain, n, hand, c, w);
    var d2 := d1.(meta := d1.meta[c := w]);
    forall x ensures Times(NonZero(w) + [c], x) == Times(hand, x) {
      EntryTimes(d.meta[c], k, b, c, x);
    }
    SameHand(d2, chain, n, hand, NonZero(w) + [c]);
    IndirectIn(d2, chain, n, i, c);
    assert d2.inodes[i := d2.inodes[i].(indirect := c)] == d.inodes;
  }

  lemma EntryTimes(w: Words, k: nat, b: BlockNo, c: BlockNo, x: BlockNo)
    requires k < |w| && w[k] == 0 && b != 0
    ensures Times(NonZero(w[k := b]) + [c], x) == Times(NonZero(w) + ([c] + [b]), x)
  {
    hide Times, NonZero;
    TimesConcat(NonZero(w[k := b]), [c], x);
    TimesConcat(NonZero(w), [c] + [b], x);
    TimesConcat([c], [b], x);
    TimesOne(b, x);
    TimesNonZero(w, x);
    TimesNonZero(w[k := b], x);
    TimesPut(w, k, b, x);
  }

  // ------------------------------------------------------------------ the kernel's own state

  /** The block that holds file block `f` of inode `i`; 0 when there is none. */
  function Pointer(inodes: Inodes, meta: Meta, i: Ino, f: nat): BlockNo {
    if i !in inodes then 0
    else if f < |inodes[i].direct| then inodes[i].direct[f]
    else if inodes[i].indirect == 0 || inodes[i].indirect !in meta then 0
    else var w := meta[inodes[i].indirect]; if f - |inodes[i].direct| < |w| then w[f - |inodes[i].direct|] else 0
  }

  const MAX_FILE_BLOCKS := NDIRECT + NINDIRECT

  class BlockStore {
    var super: Super
    var meta: Meta
    var inodes: Inodes
    /** The blocks whose frames are in the object of the file system. */
    var resident: set<BlockNo>
    ghost var chain: seq<BlockNo>
    const ninodes: nat

    ghost function Viewed(view: Inodes): Disk
      reads this`super, this`meta, this`resident
    {
      Disk(super, meta, view, resident)
    }

    ghost predicate Holds(view: Inodes, hand: seq<BlockNo>)
      reads this`super, this`meta, this`resident, this`chain
    {
      Sound(Viewed(view), chain, ninodes, hand)
    }

    ghost predicate Valid()
      reads this
    {
      Holds(inodes, [])
    }

    /** How often a block is free: in the list, in a node, or as a node. */
    ghost function FreeTimes(b: BlockNo): nat
      reads this`super, this`meta, this`chain
    {
      Freed(super, meta, chain, b)
    }

    /**
     * A disk as `fsmaker` formats it, just mounted: the blocks `first .. blocks` are free, one after the
     * other, and no inode has a block.
     */
    constructor (ninodes: nat, first: nat, blocks: nat)
      requires 0 < first <= blocks <= NONE
      ensures this.ninodes == ninodes && inodes == EmptyInodes(ninodes) && resident == {}
      ensures forall x: BlockNo :: FreeTimes(x) == if first <= x < blocks then 1 else 0
      ensures Valid()
    {
      this.ninodes := ninodes;
      super, meta, inodes := Super(0, Zeros(SLOTS), NONE), map[], EmptyInodes(ninodes);
      resident := {};
      chain := [];
      new;
      hide Sound, Freed;
      EmptySound(ninodes);
      var b := first;
      while b < blocks
        invariant first <= b <= blocks && inodes == EmptyInodes(ninodes)
        invariant forall x: BlockNo :: FreeTimes(x) == if first <= x < b then 1 else 0
        invariant Valid()
      {
        assert FreeTimes(b) == 0;
        NewInHand(Viewed(inodes), chain, ninodes, b);
        assert [b] + [] == [b];
        FreeBlock(b, inodes, []);
        b := b + 1;
      }
      NoneResident(Viewed(inodes), chain, ninodes);
      resident := {};
    }

    /** How many blocks can still be handed out. */
    ghost function Stock(): nat
      reads this`super, this`chain
    {
      super.nfree + SLOTS * |chain|
    }

    /** The blocks in the list and in the chain, with the nodes of the chain. */
    ghost function Gathered(): nat
      reads this`super, this`chain
    {
      super.nfree + NBLKS_PER_FNODE * |chain|
    }

    /** Copies the next node of the chain over the super block's list. */
    method Refill()
      requires Valid() && super.nfree == 0 && super.last != NONE
      modifies this`super, this`resident, this`chain
      ensures super.nfree == SLOTS && Stock() == old(Stock())
      ensures resident == old(resident) + {old(super.last)} && old(super.last) in old(chain)
      ensures forall b: BlockNo :: Available(Viewed(inodes), chain, b) == old(Available(Viewed(inodes), chain, b))
      ensures forall b: BlockNo :: FreeTimes(b) + (if b == old(super.last) then 1 else 0) == old(FreeTimes(b))
      ensures Valid()
    {
      hide Sound;
      HasChain(Viewed(inodes), chain, ninodes);
      RefillSound(Viewed(inodes), chain, ninodes);
      forall b: BlockNo
        ensures Available(Refilled(Viewed(inodes)), chain[1..], b) == Available(Viewed(inodes), chain, b)
      {
        RefillKeeps(Viewed(inodes), chain, b);
      }
      assert chain == [chain[0]] + chain[1..];
      TimesFirst(chain[0], chain[1..]);
      FreedIs(Viewed(inodes), chain);
      FreedIs(Refilled(Viewed(inodes)), chain[1..]);
      var w := meta[super.last];
      resident := resident + {super.last};
      super := Super(SLOTS, w[..SLOTS], w[SLOTS]);
      chain := chain[1..];
    }

    /** Hands out a free block, or -ENOSPC when none is left; a node that is refilled from is lost. */
    method AllocBlock() returns (r: int)
      requires Valid()
      modifies this`super, this`resident, this`chain
      ensures r == -ENOSPC || r > 0
      ensures r == -ENOSPC <==> old(Stock()) == 0
      ensures r == -ENOSPC ==> Valid() && unchanged(this)
      ensures r > 0 ==> Stock() == old(Stock()) - 1 && old(Available(Viewed(inodes), chain, r)) > 0 && r !in resident
      ensures r > 0 ==> forall b: BlockNo ::
        FreeTimes(b) + (if b == r then 1 else 0) + (if old(super.nfree) == 0 && b == old(super.last) then 1 else 0)
          == old(FreeTimes(b))
      ensures r > 0 ==> Holds(inodes, [r])
      ensures old(resident) <= resident <= old(resident) + set b | b in old(chain)
      ensures forall b: BlockNo :: Available(Viewed(inodes), chain, b) <= old(Available(Viewed(inodes), chain, b))
    {
      hide Sound, Available, Freed;
      StockIsEmpty(Viewed(inodes), chain, ninodes);
      if super.nfree == 0 {
        if super.last == NONE {
          return -ENOSPC;
        }
        Refill();
        StockIsEmpty(Viewed(inodes), chain, ninodes);
      }
      PopSound(Viewed(inodes), chain, ninodes);
      PopKeeps(Viewed(inodes), chain);
      FreedIs(Viewed(inodes), chain);
      FreedIs(Popped(Viewed(inodes)), chain);
      r := super.slots[super.nfree - 1];
      super := super.(nfree := super.nfree - 1);
    }

    /** Gives a block back; the callers clear their own pointers to it afterwards. */
    method FreeBlock(b: BlockNo, ghost view: Inodes, ghost hand: seq<BlockNo>)
      requires Holds(view, [b] + hand)
      modifies this`super, this`meta, this`resident, this`chain
      ensures forall c :: c in old(meta) && c != b ==> c in meta && meta[c] == old(meta)[c]
      ensures forall c :: c in meta ==> c in old(meta) || c == b
      ensures Gathered() == old(Gathered()) + 1
      ensures old(super.nfree) < SLOTS ==> Stock() == old(Stock()) + 1 && b !in resident
      ensures old(super.nfree) == SLOTS ==> Stock() == old(Stock()) && chain == [b] + old(chain)
      ensures forall x: BlockNo :: FreeTimes(x) == old(FreeTimes(x)) + if x == b then 1 else 0
      ensures Holds(view, hand)
    {
      hide Sound, Freed;
      FreeFacts(Viewed(view), chain, ninodes, hand, b);
      if super.nfree == NBLKS_PER_FNODE - 1 {
        var tail: Words := if b in meta then meta[b][NBLKS_PER_FNODE..] else Zeros(NINDIRECT - NBLKS_PER_FNODE);
        SpillSound(Viewed(view), chain, ninodes, hand, b, tail);
        SpillFrees(Viewed(view), chain, ninodes, hand, b, tail);
        var w: Words := super.slots + [super.last] + tail;
        meta := meta[b := w];
        resident := resident + {b};
        super := Super(0, super.slots, b);
        chain := [b] + chain;
      } else {
        PushSound(Viewed(view), chain, ninodes, hand, b);
        PushFrees(Viewed(view), chain, b);
        var slots: Words := super.slots[super.nfree := b];
        super := super.(slots := slots, nfree := super.nfree + 1);
        resident := resident - {b};
      }
    }

    /** How many blocks must be taken to give file block `f` a place. */
    ghost function Needed(i: Ino, f: nat): nat
      requires i in inodes
      reads this`inodes
    {
      if f >= NDIRECT && inodes[i].indirect == 0 then 2 else 1
    }

    method MapDirect(i: Ino, f: nat, alloc: bool) returns (r: int, isNew: bool)
      requires Valid() && i in inodes && f < NDIRECT
      modifies this`super, this`resident, this`chain, this`inodes
      ensures r == -ENOSPC || r >= 0
      ensures r == -ENOSPC <==> alloc && old(Pointer(inodes, meta, i, f)) == 0 && old(Stock()) < 1
      ensures r < 0 || !alloc ==> inodes == old(inodes) && super == old(super)
      ensures r >= 0 ==> r == Pointer(inodes, meta, i, f) && (alloc ==> r > 0)
      ensures isNew <==> r > 0 && old(Pointer(inodes, meta, i, f)) == 0
      ensures isNew ==> old(Available(Viewed(inodes), chain, r)) > 0
      ensures !isNew ==> inodes == old(inodes)
      ensures OthersKept(old(inodes), old(meta), inodes, meta, i, f)
      ensures Valid()
    {
      hide Sound, Available, OthersKept;
      SoundShape(Viewed(inodes), chain, ninodes, [], i);
      isNew := false;
      KeptSame(inodes, meta, i, f);
      if inodes[i].direct[f] == 0 && alloc {
        var b := AllocBlock();
        if b < 0 {
          return b, false;
        }
        isNew := true;
        DirectSound(Viewed(inodes), chain, ninodes, i, f, b);
        KeptDirect(inodes, meta, i, f, b);
        var direct: seq<BlockNo> := inodes[i].direct[f := b];
        inodes := inodes[i := inodes[i].(direct := direct)];
      }
      r := inodes[i].direct[f];
    }

    /** Gives the inode a cleared indirect block; the frame it puts into the object is not there yet. */
    method AddIndirect(i: Ino) returns (r: int)
      requires Valid() && i in inodes && inodes[i].indirect == 0
      modifies this
      ensures r == -ENOSPC || r == 0
      ensures r == -ENOSPC <==> old(Stock()) == 0
      ensures r == -ENOSPC ==> unchanged(this)
      ensures r == 0 ==> Stock() == old(Stock()) - 1 && i in inodes && inodes[i].indirect != 0
      ensures i in inodes && inodes[i].direct == old(inodes)[i].direct
      ensures forall b: BlockNo :: Available(Viewed(inodes), chain, b) <= old(Available(Viewed(inodes), chain, b))
      ensures forall j: Ino, g: nat :: Pointer(inodes, meta, j, g) == old(Pointer(inodes, meta, j, g))
      ensures Valid()
    {
      hide Sound, Available;
      var b := AllocBlock();
      if b < 0 {
        return b;
      }
      NotZero(Viewed(inodes), chain, ninodes, b);
      IndirectSound(Viewed(inodes), chain, ninodes, i, b);
      PointersWithIndirect(Viewed(inodes), chain, ninodes, i, b);
      inodes := inodes[i := inodes[i].(indirect := b)];
      CacheAndClear(b);
      r := 0;
    }

    /** Puts a zeroed frame for the block into the object: a second frame for a resident block would be an error. */
    method CacheAndClear(b: BlockNo)
      requires b !in resident
      modifies this`meta, this`resident
      ensures meta == old(meta)[b := Zeros(NINDIRECT)] && resident == old(resident) + {b}
    {
      meta := meta[b := Zeros(NINDIRECT)];
      resident := resident + {b};
    }

    /** The entry of the indirect block that is there already. */
    method MapEntry(i: Ino, f: nat, alloc: bool) returns (r: int, isNew: bool)
      requires Valid() && i in inodes && NDIRECT <= f < MAX_FILE_BLOCKS && inodes[i].indirect != 0
      modifies this`super, this`resident, this`chain, this`meta
      ensures r == -ENOSPC || r >= 0
      ensures r == -ENOSPC <==> alloc && old(Pointer(inodes, meta, i, f)) == 0 && old(Stock()) < 1
      ensures r < 0 || !alloc ==> meta == old(meta) && super == old(super)
      ensures r >= 0 ==> r == Pointer(inodes, meta, i, f) && (alloc ==> r > 0)
      ensures isNew <==> r > 0 && old(Pointer(inodes, meta, i, f)) == 0
      ensures isNew ==> old(Available(Viewed(inodes), chain, r)) > 0
      ensures !isNew ==> meta == old(meta)
      ensures OthersKept(old(inodes), old(meta), inodes, meta, i, f)
      ensures Valid()
    {
      hide Sound, Available, OthersKept;
      var c, k := inodes[i].indirect, f - NDIRECT;
      SoundShape(Viewed(inodes), chain, ninodes, [], i);
      ResidentSound(Viewed(inodes), chain, ninodes, [], c);
      SameAvailable(Viewed(inodes), chain, c);
      resident := resident + {c};
      isNew := false;
      KeptSame(inodes, meta, i, f);
      if meta[c][k] == 0 && alloc {
        var b := AllocBlock();
        if b < 0 {
          return b, false;
        }
        isNew := true;
        EntrySound(Viewed(inodes), chain, ninodes, i, k, b);
        KeptEntry(Viewed(inodes), chain, ninodes, [b], i, f, b);
        var w: Words := meta[c][k := b];
        meta := meta[c := w];
      }
      r := meta[c][k];
    }

    method MapIndirect(i: Ino, f: nat, alloc: bool) returns (r: int, isNew: bool)
      requires Valid() && i in inodes && NDIRECT <= f < MAX_FILE_BLOCKS
      modifies this
      ensures r == -ENOSPC || r >= 0
      ensures r == -ENOSPC <==> alloc && old(Pointer(inodes, meta, i, f)) == 0 && old(Stock()) < old(Needed(i, f))
      ensures !alloc ==> inodes == old(inodes) && meta == old(meta) && super == old(super)
      ensures r >= 0 ==> r == Pointer(inodes, meta, i, f) && (alloc ==> r > 0)
      ensures isNew <==> r > 0 && old(Pointer(inodes, meta, i, f)) == 0
      ensures isNew ==> old(Available(Viewed(inodes), chain, r)) > 0
      ensures !isNew ==> Pointer(inodes, meta, i, f) == old(Pointer(inodes, meta, i, f))
      ensures OthersKept(old(inodes), old(meta), inodes, meta, i, f)
      ensures Valid()
    {
      hide Sound, Available;
      SoundShape(Viewed(inodes), chain, ninodes, [], i);
      if inodes[i].indirect == 0 {
        if !alloc {
          return 0, false;
        }
        r := AddIndirect(i);
        if r < 0 {
          return r, false;
        }
      }
      r, isNew := MapEntry(i, f, alloc);
    }

    /** Where file block `f` is on disk; with `alloc`, a missing block is allocated. */
    method MapBlock(i: Ino, f: nat, alloc: bool) returns (r: int, isNew: bool)
      requires Valid() && i in inodes
      modifies this
      ensures r >= 0 || r == -EINVAL || r == -ENOSPC
      ensures r == -EINVAL <==> f >= MAX_FILE_BLOCKS
      ensures r == -ENOSPC
        <==> f < MAX_FILE_BLOCKS && alloc && old(Pointer(inodes, meta, i, f)) == 0 && old(Stock()) < old(Needed(i, f))
      ensures r == -EINVAL || !alloc ==> inodes == old(inodes) && meta == old(meta) && super == old(super)
      ensures r >= 0 ==> r == Pointer(inodes, meta, i, f) && (alloc ==> r > 0)
      ensures isNew <==> r > 0 && old(Pointer(inodes, meta, i, f)) == 0
      ensures isNew ==> old(Available(Viewed(inodes), chain, r)) > 0
      ensures !isNew ==> Pointer(inodes, meta, i, f) == old(Pointer(inodes, meta, i, f))
      ensures OthersKept(old(inodes), old(meta), inodes, meta, i, f)
      ensures Valid()
    {
      hide Sound, Available, Pointer, OthersKept;
      if f >= MAX_FILE_BLOCKS {
        KeptSame(inodes, meta, i, f);
        return -EINVAL, false;
      }
      if f < NDIRECT {
        r, isNew := MapDirect(i, f, alloc);
      } else {
        r, isNew := MapIndirect(i, f, alloc);
      }
    }

    /** Frees every block that an array of pointers names. */
    method FreeEach(pointers: seq<BlockNo>, ghost view: Inodes, ghost hand: seq<BlockNo>)
      requires Holds(view, NonZero(pointers) + hand)
      modifies this`super, this`meta, this`resident, this`chain
      ensures forall c :: c in old(meta) && c !in pointers ==> c in meta && meta[c] == old(meta)[c]
      ensures forall x: BlockNo :: FreeTimes(x) == old(FreeTimes(x)) + Times(NonZero(pointers), x)
      ensures Gathered() == old(Gathered()) + |NonZero(pointers)|
      ensures Holds(view, hand)
    {
      hide Sound, Available, Freed, Times, NonZero;
      var k := 0;

      assert pointers[0..] == pointers;
      while k < |pointers|
        invariant 0 <= k <= |pointers|
        invariant forall c :: c in old(meta) && c !in pointers ==> c in meta && meta[c] == old(meta)[c]
        invariant forall x: BlockNo ::
          FreeTimes(x) + Times(NonZero(pointers[k..]), x) == old(FreeTimes(x)) + Times(NonZero(pointers), x)
        invariant Gathered() + |NonZero(pointers[k..])| == old(Gathered()) + |NonZero(pointers)|
        invariant Holds(view, NonZero(pointers[k..]) + hand)
      {
        var b := pointers[k];
        NonZeroStep(pointers, k);
        if b != 0 {
          ghost var rest := NonZero(pointers[k + 1..]) + hand;
          InFront(b, NonZero(pointers[k + 1..]), hand);
          TimesFirst(b, NonZero(pointers[k + 1..]));
          FreeBlock(b, view, rest);
        }
        k := k + 1;
      }
      NonZeroNone();
      TimesEmpty();
      assert pointers[k..] == [] && [] + hand == hand;
    }

    /** Gives back all blocks of an inode: each block it had is free afterwards, and no other. */
    method RemoveBlocks(i: Ino)
      requires Valid() && i in inodes
      modifies this
      ensures inodes == old(inodes)[i := Inode(Zeros(NDIRECT), 0)]
      ensures forall x: BlockNo :: x != 0 ==> FreeTimes(x) == old(FreeTimes(x)) + old(Owned(inodes[i], meta, x))
      ensures old(super.nfree) <= SLOTS
      ensures Stock() == old(Stock()) + Returned(old(BlocksOf(inodes[i], meta)), old(super.nfree))
      ensures Valid()
    {
      hide Sound, Available, NonZero, Freed, Times, Owned, Returned;
      StockIsEmpty(Viewed(inodes), chain, ninodes);
      ghost var super0, chain0 := super, chain;
      SoundShape(Viewed(inodes), chain, ninodes, [], i);
      DirectsOut(Viewed(inodes), chain, ninodes, i);
      NotDirect(Viewed(inodes), chain, ninodes, i);
      ghost var view := inodes[i := inodes[i].(direct := Zeros(NDIRECT))];
      assert NonZero(inodes[i].direct) + [] == NonZero(inodes[i].direct);
      FreeEach(inodes[i].direct, view, []);
      forall x: BlockNo | x != 0 ensures old(Owned(inodes[i], meta, x))
        == Times(NonZero(old(inodes)[i].direct), x) + IndirectTimes(old(inodes)[i].indirect, old(meta), x) {
        OwnedParts(old(inodes)[i], old(meta), x);
      }
      inodes := inodes[i := inodes[i].(direct := Zeros(NDIRECT))];
      if inodes[i].indirect != 0 {
        RemoveIndirect(i);
      }
      StockIsEmpty(Viewed(inodes), chain, ninodes);
      StockGrows(super0.nfree, |chain0|, super.nfree, |chain|, old(BlocksOf(inodes[i], meta)));
    }

    /** The entries are read from the indirect block while the blocks they name are given back. */
    method RemoveIndirect(i: Ino)
      requires Valid() && i in inodes && inodes[i].indirect != 0
      modifies this
      ensures inodes == old(inodes)[i := old(inodes)[i].(indirect := 0)]
      ensures forall x: BlockNo ::
        x != 0 ==> FreeTimes(x) == old(FreeTimes(x)) + old(IndirectTimes(inodes[i].indirect, meta, x))
      ensures Gathered() == old(Gathered()) + old(IndirectBlocks(inodes[i].indirect, meta))
      ensures Valid()
    {
      hide Sound, Available, NonZero, Freed, Times;
      var c := inodes[i].indirect;
      SoundShape(Viewed(inodes), chain, ninodes, [], i);
      ResidentSound(Viewed(inodes), chain, ninodes, [], c);
      resident := resident + {c};
      IndirectOut(Viewed(inodes), chain, ninodes, [], i);
      ghost var view, entries := inodes[i := inodes[i].(indirect := 0)], meta[c];
      assert [c] + [] == [c];
      var k := 0;
      assert entries[0..] == entries;
      while k < NINDIRECT
        invariant 0 <= k <= NINDIRECT && inodes == old(inodes)
        invariant c in meta && meta[c] == entries && |entries| == NINDIRECT
        invariant forall x: BlockNo ::
          FreeTimes(x) + Times(NonZero(entries[k..]), x) == old(FreeTimes(x)) + Times(NonZero(entries), x)
        invariant Gathered() + |NonZero(entries[k..])| == old(Gathered()) + |NonZero(entries)|
        invariant Holds(view, NonZero(entries[k..]) + [c])
      {
        NonZeroStep(entries, k);
        if meta[c][k] != 0 {
          ghost var rest := NonZero(entries[k + 1..]) + [c];
          InFront(entries[k], NonZero(entries[k + 1..]), [c]);
          HandApart(Viewed(view), chain, ninodes, entries[k], NonZero(entries[k + 1..]), [c]);
          TimesFirst(entries[k], NonZero(entries[k + 1..]));
          FreeBlock(meta[c][k], view, rest);
        }
        k := k + 1;
      }
      NonZeroNone();
      TimesEmpty();
      assert entries[k..] == [] && [] + [c] == [c] + [];
      FreeBlock(inodes[i].indirect, view, []);
      forall x: BlockNo | x != 0 ensures Times(NonZero(entries), x) == Times(entries, x) {
        TimesNonZero(entries, x);
      }
      inodes := inodes[i := inodes[i].(indirect := 0)];
    }
  }

  lemma HasChain(d: Disk, chain: seq<BlockNo>, n: nat)
    requires Sound(d, chain, n, [])
    ensures d.super.last != NONE <==> chain != []
  {
    hide OwnedBelow, Available;
    if chain != [] {
      TimesIn(chain, chain[0]);
      assert Places(d, chain, n, [], NONE) == 0;
    }
  }

  lemma StockIsEmpty(d: Disk, chain: seq<BlockNo>, n: nat)
    requires Sound(d, chain, n, [])
    ensures d.super.nfree + SLOTS * |chain| == 0 <==> d.super.nfree == 0 && d.super.last == NONE
    ensures d.super.nfree <= |d.super.slots| == SLOTS
  {
    HasChain(d, chain, n);
  }

  lemma RefillKeeps(d: Disk, chain: seq<BlockNo>, b: BlockNo)
    requires
      && chain != [] && d.super.nfree == 0 && d.super.last == chain[0] && d.super.last in d.meta
      && |d.meta[d.super.last]| == NINDIRECT
    ensures Available(Refilled(d), chain[1..], b) == Available(d, chain, b)
  {
    hide Times;
    var d' := Refilled(d);
    assert d'.super.slots[..SLOTS] == d'.super.slots && d.super.slots[..0] == [];
    TimesNone(b);
  }

  lemma PopKeeps(d: Disk, chain: seq<BlockNo>)
    requires 0 < d.super.nfree <= |d.super.slots|
    ensures forall x: BlockNo ::
      Available(Popped(d), chain, x) + (if x == d.super.slots[d.super.nfree - 1] then 1 else 0)
        == Available(d, chain, x)
  {
    hide Times, Listed;
    var k := d.super.nfree;
    var b := d.super.slots[k - 1];
    assert d.super.slots[..k] == d.super.slots[..k - 1] + [b];
    forall x: BlockNo ensures Available(Popped(d), chain, x) + (if x == b then 1 else 0) == Available(d, chain, x) {
      TimesAppend(d.super.slots[..k - 1], b, x);
    }
  }

  lemma FreedIs(d: Disk, chain: seq<BlockNo>)
    ensures forall x: BlockNo :: Freed(d.super, d.meta, chain, x) == Times(chain, x) + Available(d, chain, x)
  {
  }

  lemma FreeFacts(d: Disk, chain: seq<BlockNo>, n: nat, hand: seq<BlockNo>, b: BlockNo)
    requires Sound(d, chain, n, [b] + hand)
    ensures b != 0 && d.super.nfree <= SLOTS == |d.super.slots| && (b in d.meta ==> |d.meta[b]| == NINDIRECT)
  {
    TimesIn([b] + hand, 0);
  }

  /** All pointers but one are as before. */
  ghost predicate OthersKept(inodes: Inodes, meta: Meta, inodes': Inodes, meta': Meta, i: Ino, f: nat) {
    forall j: Ino, g: nat :: j != i || g != f ==> Pointer(inodes', meta', j, g) == Pointer(inodes, meta, j, g)
  }

  lemma KeptSame(inodes: Inodes, meta: Meta, i: Ino, f: nat)
    ensures OthersKept(inodes, meta, inodes, meta, i, f)
  {
  }

  lemma KeptDirect(inodes: Inodes, meta: Meta, i: Ino, f: nat, b: BlockNo)
    requires i in inodes && f < |inodes[i].direct|
    ensures OthersKept(inodes, meta, inodes[i := inodes[i].(direct := inodes[i].direct[f := b])], meta, i, f)
  {
  }

  lemma PointersWithIndirect(d: Disk, chain: seq<BlockNo>, n: nat, i: Ino, b: BlockNo)
    requires Sound(d, chain, n, [b]) && i in d.inodes && d.inodes[i].indirect == 0
    ensures var d' := WithIndirect(d, i, b);
      forall j: Ino, g: nat :: Pointer(d'.inodes, d'.meta, j, g) == Pointer(d.inodes, d.meta, j, g)
    ensures forall x: BlockNo :: Available(WithIndirect(d, i, b), chain, x) == Available(d, chain, x)
  {
    hide OwnedBelow, Times, IsChain, Listed;
    NotZero(d, chain, n, b);
    UsedThere(d, chain, n, [b], b);
    MetaFrame(d, chain, n, b, Zeros(NINDIRECT));
  }

  lemma SameAvailable(d: Disk, chain: seq<BlockNo>, c: BlockNo)
    ensures forall x: BlockNo :: Available(d.(resident := d.resident + {c}), chain, x) == Available(d, chain, x)
  {
  }

  lemma OnlyIndirect(d: Disk, chain: seq<BlockNo>, n: nat, hand: seq<BlockNo>, i: Ino, j: Ino)
    requires Sound(d, chain, n, hand) && i in d.inodes && j in d.inodes && i != j && d.inodes[i].indirect != 0
    ensures d.inodes[j].indirect != d.inodes[i].indirect
  {
    hide Times, Listed, IsChain, Available, Owned, OwnedBelow;
    var c := d.inodes[i].indirect;
    assert Places(d, chain, n, hand, c) <= 1;
    OwnedTwo(d.inodes, d.meta, n, i, j, c);
    IndirectOwned(d.inodes[i], d.meta, c);
    IndirectOwned(d.inodes[j], d.meta, c);
  }

  lemma KeptEntry(d: Disk, chain: seq<BlockNo>, n: nat, hand: seq<BlockNo>, i: Ino, f: nat, b: BlockNo)
    requires Sound(d, chain, n, hand) && i in d.inodes && NDIRECT <= f < MAX_FILE_BLOCKS
    requires d.inodes[i].indirect != 0 && d.inodes[i].indirect in d.meta && |d.meta[d.inodes[i].indirect]| == NINDIRECT
    ensures OthersKept(d.inodes, d.meta, d.inodes, WithEntry(d, d.inodes[i].indirect, f - NDIRECT, b).meta, i, f)
  {
    hide Sound;
    SoundShape(d, chain, n, hand, i);
    forall j | j in d.inodes && j != i ensures d.inodes[j].indirect != d.inodes[i].indirect {
      OnlyIndirect(d, chain, n, hand, i, j);
    }
  }

  /** The first block in hand is in hand only once. */
  lemma HandApart(d: Disk, chain: seq<BlockNo>, n: nat, b: BlockNo, mid: seq<BlockNo>, hand: seq<BlockNo>)
    requires Sound(d, chain, n, [b] + (mid + hand))
    ensures b !in hand
  {
    hide Available, OwnedBelow, Times, Shaped;
    forall x ensures Times([b] + (mid + hand), x) == (if x == b then 1 else 0) + Times(mid, x) + Times(hand, x) {
      TimesConcat([b], mid + hand, x);
      TimesConcat(mid, hand, x);
      TimesOne(b, x);
    }
    assert b != 0;
    assert Places(d, chain, n, [b] + (mid + hand), b) <= 1;
    TimesIn(hand, b);
  }

  lemma NonZeroStep(s: seq<BlockNo>, k: nat)
    requires k < |s|
    ensures NonZero(s[k..]) == if s[k] == 0 then NonZero(s[k + 1..]) else [s[k]] + NonZero(s[k + 1..])
  {
    assert s[k..][1..] == s[k + 1..];
  }

  lemma NonZeroNone()
    ensures NonZero([]) == []
  {
  }

  /** How often a block is in the chain, the lists of its nodes, or the super block. */
  ghost function Freed(super: Super, meta: Meta, chain: seq<BlockNo>, b: BlockNo): nat {
    Times(chain, b) + Available(Disk(super, meta, map[], {}), chain, b)
  }

  /** By the indirect pointer and the indirect block. */
  ghost function IndirectTimes(c: BlockNo, meta: Meta, x: BlockNo): nat {
    if c == 0 then 0 else (if c == x then 1 else 0) + if c in meta then Times(meta[c], x) else 0
  }

  /** The indirect block and the blocks it names. */
  ghost function IndirectBlocks(c: BlockNo, meta: Meta): nat {
    if c == 0 then 0 else 1 + if c in meta then |NonZero(meta[c])| else 0
  }

  /** How many blocks an inode has. */
  ghost function BlocksOf(i: Inode, meta: Meta): nat {
    |NonZero(i.direct)| + IndirectBlocks(i.indirect, meta)
  }

  /**
   * How many of `n` blocks given back can be handed out again, when the super block lists `nfree`: all but
   * those that become nodes of the chain.
   */
  function Returned(n: nat, nfree: nat): (r: nat)
    requires nfree <= SLOTS
    ensures r <= n <= r + n / NBLKS_PER_FNODE + 1
  {
    n - (nfree + n) / NBLKS_PER_FNODE
  }

  lemma StockGrows(nfree: nat, nodes: nat, nfree': nat, nodes': nat, n: nat)
    requires nfree <= SLOTS && nfree' <= SLOTS
    requires nfree' + NBLKS_PER_FNODE * nodes' == nfree + NBLKS_PER_FNODE * nodes + n
    ensures nfree' + SLOTS * nodes' == nfree + SLOTS * nodes + Returned(n, nfree)
  {
    assert (nfree + n) / NBLKS_PER_FNODE == nodes' - nodes;
  }

  lemma OwnedParts(i: Inode, meta: Meta, x: BlockNo)
    requires x != 0
    ensures Owned(i, meta, x) == Times(NonZero(i.direct), x) + IndirectTimes(i.indirect, meta, x)
  {
    hide Times, NonZero;
    TimesNonZero(i.direct, x);
  }

  lemma InFront(b: BlockNo, mid: seq<BlockNo>, hand: seq<BlockNo>)
    ensures [b] + mid + hand == [b] + (mid + hand)
  {
  }

  lemma TimesEmpty()
    ensures forall x: BlockNo :: Times([], x) == 0
  {
  }

  lemma TimesFirst(b: BlockNo, s: seq<BlockNo>)
    ensures forall x: BlockNo :: Times([b] + s, x) == Times(s, x) + if x == b then 1 else 0
  {
    hide Times;
    forall x: BlockNo ensures Times([b] + s, x) == Times(s, x) + if x == b then 1 else 0 {
      TimesConcat([b], s, x);
      TimesOne(b, x);
    }
  }

  lemma PushFrees(d: Disk, chain: seq<BlockNo>, b: BlockNo)
    requires d.super.nfree < |d.super.slots|
    ensures var s := Pushed(d, b).super;
      forall x: BlockNo :: Freed(s, d.meta, chain, x) == Freed(d.super, d.meta, chain, x) + if x == b then 1 else 0
  {
    hide Listed, Times;
    var s, k := Pushed(d, b).super, d.super.nfree;
    assert s.slots[..k + 1] == d.super.slots[..k] + [b];
    forall x: BlockNo ensures Freed(s, d.meta, chain, x) == Freed(d.super, d.meta, chain, x) + if x == b then 1 else 0 {
      TimesAppend(d.super.slots[..k], b, x);
    }
  }

  lemma SpillFrees(d: Disk, chain: seq<BlockNo>, n: nat, hand: seq<BlockNo>, b: BlockNo, tail: Words)
    requires Sound(d, chain, n, [b] + hand) && d.super.nfree == SLOTS && |tail| == NINDIRECT - NBLKS_PER_FNODE
    ensures var d' := Spilled(d, b, tail);
      forall x: BlockNo ::
        Freed(d'.super, d'.meta, [b] + chain, x) == Freed(d.super, d.meta, chain, x) + if x == b then 1 else 0
  {
    hide Times;
    var w, d' := d.super.slots + [d.super.last] + tail, Spilled(d, b, tail);
    FreeFacts(d, chain, n, hand, b);
    UsedThere(d, chain, n, [b] + hand, b);
    MetaFrame(d, chain, n, b, w);
    assert ([b] + chain)[1..] == chain && w[..SLOTS] == d.super.slots && d.super.slots[..SLOTS] == d.super.slots
           && d'.super.slots[..0] == [];
    TimesFirst(b, chain);
    TimesEmpty();
  }

  function EmptyInodes(n: nat): (r: Inodes)
    ensures forall i :: i in r ==> i < n && r[i] == Inode(Zeros(NDIRECT), 0)
    ensures forall i: Ino :: i < n ==> i in r
  {
    if n == 0 then map[] else EmptyInodes(n - 1)[n - 1 := Inode(Zeros(NDIRECT), 0)]
  }

  lemma {:induction false} EmptyOwned(m: nat, meta: Meta, n: nat, x: BlockNo)
    ensures x != 0 ==> OwnedBelow(EmptyInodes(m), meta, n, x) == 0
  {
    hide Times;
    if n > 0 {
      EmptyOwned(m, meta, n - 1, x);
      TimesZeros(NDIRECT, x);
    }
  }

  lemma EmptySound(n: nat)
    ensures var d := Disk(Super(0, Zeros(SLOTS), NONE), map[], EmptyInodes(n), {});
      Sound(d, [], n, []) && forall x: BlockNo :: Freed(d.super, d.meta, [], x) == 0
  {
    hide OwnedBelow;
    var d := Disk(Super(0, Zeros(SLOTS), NONE), map[], EmptyInodes(n), {});
    assert d.super.slots[..0] == [];
    forall x: BlockNo ensures Freed(d.super, d.meta, [], x) == 0 && (x != 0 ==> Places(d, [], n, [], x) == 0) {
      EmptyOwned(n, map[], n, x);
    }
  }

  /** A block of the disk that nothing refers to yet. */
  lemma NewInHand(d: Disk, chain: seq<BlockNo>, n: nat, b: BlockNo)
    requires Sound(d, chain, n, []) && d.inodes == EmptyInodes(n) && Freed(d.super, d.meta, chain, b) == 0
    requires 0 < b < NONE
    ensures Sound(d, chain, n, [b])
  {
    hide OwnedBelow, Listed, Times;
    EmptyOwned(n, d.meta, n, b);
    TimesEmpty();
    forall x: BlockNo ensures Times([b], x) == if x == b then 1 else 0 {
      TimesOne(b, x);
    }
    assert forall x: BlockNo :: Places(d, chain, n, [b], x) == Places(d, chain, n, [], x) + if x == b then 1 else 0;
    assert Places(d, chain, n, [], b) == 0;
  }

  lemma NoneResident(d: Disk, chain: seq<BlockNo>, n: nat)
    requires Sound(d, chain, n, [])
    ensures Sound(d.(resident := {}), chain, n, [])
  {
    hide OwnedBelow, Listed, Times, IsChain;
    var d' := d.(resident := {});
    assert forall x: BlockNo :: Places(d', chain, n, [], x) == Places(d, chain, n, [], x);
    assert Available(d', chain, 0) == Available(d, chain, 0);
  }

  /** An inode's indirect block is none of its direct ones. */
  lemma NotDirect(d: Disk, chain: seq<BlockNo>, n: nat, i: Ino)
    requires Sound(d, chain, n, []) && i in d.inodes
    ensures d.inodes[i].indirect != 0 ==> d.inodes[i].indirect !in d.inodes[i].direct
  {
    hide Times, Listed, IsChain, Available, OwnedBelow;
    var c := d.inodes[i].indirect;
    if c != 0 {
      assert Places(d, chain, n, [], c) <= 1;
      OwnedPart(d.inodes, d.meta, n, i, c);
      TimesIn(d.inodes[i].direct, c);
    }
  }
}
