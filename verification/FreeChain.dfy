/**
 * The free blocks of an S5 disk: an array in the super block, and behind it a chain of
 * node blocks, each of which stores a full array and the number of the next node.
 * This is fsmaker's version of the operations on it, which is exactly a stack.
 */
module FreeChain {
  const NBLKS_PER_FNODE := 30
  const SLOTS := NBLKS_PER_FNODE - 1
  const NONE := 0xffff_ffff

  type BlockNo = nat

  /** The numbers at the start of a block. */
  type Node = seq<nat>

  /** The node blocks from `last` on, in order. */
  ghost predicate IsChain(disk: map<BlockNo, Node>, last: nat, chain: seq<BlockNo>)
    decreases |chain|
  {
    if chain == [] then last == NONE
    else
      && last == chain[0] && last != NONE && last in disk && |disk[last]| == NBLKS_PER_FNODE
      && IsChain(disk, disk[last][SLOTS], chain[1..])
  }

  /** The blocks stored in a chain; a node lies on top of the blocks it stores. */
  function Stored(disk: map<BlockNo, Node>, chain: seq<BlockNo>): seq<BlockNo> {
    if chain == [] then []
    else
      Stored(disk, chain[1..])
      + (if chain[0] in disk && |disk[chain[0]]| == NBLKS_PER_FNODE then disk[chain[0]][..SLOTS] else [])
      + [chain[0]]
  }

  ghost predicate Distinct(s: seq<BlockNo>) {
    forall i, j :: 0 <= i < j < |s| ==> s[i] != s[j]
  }

  lemma {:induction false} ChainStored(disk: map<BlockNo, Node>, chain: seq<BlockNo>, b: BlockNo)
    requires b in chain
    ensures b in Stored(disk, chain)
  {
    if b != chain[0] {
      ChainStored(disk, chain[1..], b);
    }
  }

  /** Writing a block that is not in the chain leaves the chain alone. */
  lemma {:induction false} ChainFrame(disk: map<BlockNo, Node>, disk': map<BlockNo, Node>, last: nat,
                                      chain: seq<BlockNo>)
    requires IsChain(disk, last, chain) && forall b :: b in chain && b in disk ==> b in disk' && disk'[b] == disk[b]
    ensures IsChain(disk', last, chain) && Stored(disk', chain) == Stored(disk, chain)
    decreases |chain|
  {
    if chain != [] {
      ChainFrame(disk, disk', disk[last][SLOTS], chain[1..]);
    }
  }

  class Simdisk {
    var nfree: nat
    const slots: array<nat>
    var last: nat
    var disk: map<BlockNo, Node>
    ghost var chain: seq<BlockNo>

    ghost predicate Valid()
      reads this, slots
    {
      && slots.Length == SLOTS && nfree <= SLOTS && IsChain(disk, last, chain)
      && Distinct(Contents()) && NONE !in Contents()
    }

    /** The free blocks, the next one to be handed out last. */
    ghost function Contents(): seq<BlockNo>
      requires slots.Length == SLOTS && nfree <= SLOTS
      reads this, slots
    {
      Stored(disk, chain) + slots[..nfree]
    }

    constructor ()
      ensures Valid() && Contents() == []
    {
      slots := new nat[SLOTS](_ => 0);
      nfree, last, disk, chain := 0, NONE, map[], [];
    }

    /** `block.write` of consecutive numbers: the slots, then the number of the next node. */
    method WriteNode(b: BlockNo)
      requires slots.Length == SLOTS
      modifies this`disk
      ensures disk == old(disk)[b := slots[..] + [last]]
    {
      var node: Node := if b in disk && |disk[b]| == NBLKS_PER_FNODE then disk[b] else seq(NBLKS_PER_FNODE, _ => 0);
      var i := 0;
      while i < SLOTS
        invariant 0 <= i <= SLOTS && |node| == NBLKS_PER_FNODE && node[..i] == slots[..i]
      {
        node := node[i := slots[i]];
        i := i + 1;
      }
      node := node[SLOTS := last];
      assert node == node[..SLOTS] + [last] && slots[..SLOTS] == slots[..];
      disk := disk[b := node];
    }

    /** Into the next slot, or, when the slots are full, into a new node that takes them over. */
    method Push(b: BlockNo)
      requires slots.Length == SLOTS && nfree <= SLOTS && IsChain(disk, last, chain) && b !in Contents() && b != NONE
      modifies this, slots
      ensures nfree <= SLOTS && IsChain(disk, last, chain) && Contents() == old(Contents()) + [b]
    {
      ghost var s := Contents();
      if nfree < SLOTS {
        ghost var before := slots[..nfree];
        slots[nfree] := b;
        nfree := nfree + 1;
        assert slots[..nfree] == before + [b];
      } else {
        ghost var d := disk;
        WriteNode(b);
        Unchained(d, chain, b, slots[..nfree]);
        ChainFrame(d, disk, last, chain);
        assert ([b] + chain)[1..] == chain && disk[b][..SLOTS] == slots[..nfree];
        chain := [b] + chain;
        last := b;
        nfree := 0;
      }
      assert Contents() == s + [b];
    }

    /** `Block.free`: a push. */
    method FreeBlock(b: BlockNo)
      requires Valid() && b !in Contents() && b != NONE
      modifies this, slots
      ensures Valid() && Contents() == old(Contents()) + [b]
    {
      Push(b);
    }

    /** `Simdisk.alloc_block`: a pop, which fails only on an empty stack. */
    method AllocBlock() returns (ok: bool, b: BlockNo)
      requires Valid()
      modifies this, slots
      ensures Valid() && (ok <==> old(Contents()) != [])
      ensures ok ==> old(Contents()) == Contents() + [b] && b !in Contents()
      ensures !ok ==> Contents() == []
    {
      ghost var s := Contents();
      if nfree == 0 {
        if last == NONE {
          return false, 0;
        }
        b := last;
        ghost var rest := chain[1..];
        var i := 0;
        while i < SLOTS
          invariant 0 <= i <= SLOTS && slots[..i] == disk[b][..i]
          modifies slots
        {
          slots[i] := disk[b][i];
          i := i + 1;
        }
        last := disk[b][SLOTS];
        nfree := SLOTS;
        chain := rest;
      } else {
        nfree := nfree - 1;
        b := slots[nfree];
      }
      ok := true;
      assert s == Contents() + [b];
      Popped(Contents(), b);
    }

    /** The chain-building loop of `Simdisk.format`: afterwards all data blocks are on the stack, in order. */
    method Format(iblocks: nat, blocks: nat) returns (ok: bool)
      requires slots.Length == SLOTS && blocks <= NONE
      modifies this, slots
      ensures ok <==> iblocks + 1 < blocks
      ensures ok ==> Valid() && Contents() == DataBlocks(iblocks + 1, blocks)
    {
      if iblocks + 1 >= blocks {
        return false;
      }
      last, nfree, chain := NONE, 0, [];
      var num := iblocks + 1;
      while num < blocks
        invariant iblocks + 1 <= num <= blocks && nfree <= SLOTS && IsChain(disk, last, chain)
        invariant Contents() == DataBlocks(iblocks + 1, num)
      {
        InOrder(iblocks + 1, num);
        Push(num);
        num := num + 1;
      }
      InOrder(iblocks + 1, num);
      ok := true;
    }
  }

  lemma Popped(s: seq<BlockNo>, b: BlockNo)
    requires Distinct(s + [b]) && NONE !in s + [b]
    ensures Distinct(s) && NONE !in s && b !in s
  {
    var t := s + [b];
    assert t[|s|] == b && forall i :: 0 <= i < |s| ==> t[i] == s[i];
  }

  /** A block that is not stored is no node of the chain. */
  lemma Unchained(disk: map<BlockNo, Node>, chain: seq<BlockNo>, b: BlockNo, slots: seq<BlockNo>)
    requires b !in Stored(disk, chain) + slots
    ensures b !in chain
  {
    if b in chain {
      ChainStored(disk, chain, b);
    }
  }

  /** `lo .. hi`, in order. */
  function DataBlocks(lo: nat, hi: nat): seq<BlockNo>
    requires lo <= hi
  {
    seq(hi - lo, i => lo + i)
  }

  lemma InOrder(lo: nat, hi: nat)
    requires lo <= hi <= NONE
    ensures Distinct(DataBlocks(lo, hi)) && NONE !in DataBlocks(lo, hi) && hi !in DataBlocks(lo, hi)
    ensures DataBlocks(lo, hi + 1) == DataBlocks(lo, hi) + [hi]
  {
  }
}
