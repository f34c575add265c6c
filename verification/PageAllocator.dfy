/**
 * The physical page allocator: the buddy tree of `Buddy` stored as a bitmap of words,
 * one row after the other, with a count and a leftmost available index per order.
 */
module PageAllocator {
  import opened Buddy
  import opened Words

  // ---------------------------------------------------------------------- layout

  /** The index of the first node of an order, and the index past its last one. */
  function RowStart(m: nat, o: nat): nat
    requires o <= m
  {
    Pow2(m - o) - 1
  }

  function RowEnd(m: nat, o: nat): nat
    requires o <= m
  {
    2 * RowStart(m, o) + 1
  }

  function Index(m: nat, o: nat, p: nat): nat
    requires o <= m
  {
    RowStart(m, o) + p
  }

  /** Bit 0 of a word is its most significant one. */
  predicate BitAt(words: seq<nat>, idx: nat) {
    idx / BITS < |words| && Bit(words[idx / BITS], BITS - 1 - idx % BITS)
  }

  ghost predicate IsFirst(row: seq<bool>, i: int) {
    0 <= i <= |row| && (i < |row| ==> row[i]) && forall j :: 0 <= j < i ==> !row[j]
  }

  /** The bits of the tree are those of the rows, and the one bit behind it is never set. */
  ghost predicate BitsMatch(m: nat, words: seq<nat>, r: Rows) {
    && Shaped(r, m) && Pow2(m + 1) <= BITS * |words| && !BitAt(words, RowEnd(m, 0))
    && (forall i :: 0 <= i < |words| ==> words[i] < Pow2(BITS))
    && forall o: nat, p: nat :: o <= m && p < Pow2(m - o) ==> BitAt(words, Index(m, o, p)) == At(r, o, p)
  }

  /** The counts and leftmost indices of every order are exact. */
  ghost predicate Summaries(m: nat, r: Rows, mins: seq<nat>, counts: seq<nat>) {
    && Shaped(r, m) && |mins| == m + 1 && |counts| == m + 1
    && forall o :: 0 <= o <= m ==> counts[o] == Count(r[o], |r[o]|) && IsFirst(r[o], mins[o] - RowStart(m, o))
  }

  lemma {:induction false} Pow2Grows(a: nat, b: nat)
    requires a <= b
    ensures Pow2(a) <= Pow2(b)
  {
    if a < b {
      Pow2Grows(a, b - 1);
    }
  }

  lemma IndexFits(m: nat, o: nat, p: nat)
    requires o <= m && p < Pow2(m - o)
    ensures RowEnd(m, o) == RowStart(m, o) + Pow2(m - o) && Index(m, o, p) < RowEnd(m, o) < Pow2(m + 1)
  {
    Pow2Grows(m - o + 1, m + 1);
  }

  /** The rows do not overlap. */
  lemma IndexInjective(m: nat, o: nat, p: nat, a: nat, q: nat)
    requires o <= m && p < Pow2(m - o) && a <= m && q < Pow2(m - a)
    ensures Index(m, o, p) == Index(m, a, q) <==> o == a && p == q
  {
    if o < a {
      Pow2Grows(m - a + 1, m - o);
    } else if a < o {
      Pow2Grows(m - o + 1, m - a);
    }
  }

  /** The sibling, parent and child of a node, as the index macros compute them. */
  lemma SiblingIndex(m: nat, o: nat, p: nat)
    requires o < m && p < Pow2(m - o)
    ensures Sibling(p) < Pow2(m - o) && p / 2 < Pow2(m - o - 1)
    ensures var idx := Index(m, o, p);
      && idx > 0 && (idx % 2 == 1 <==> p % 2 == 0)
      && (if idx % 2 == 1 then idx + 1 else idx - 1) == Index(m, o, Sibling(p))
      && (if idx % 2 == 1 then idx else idx - 1) == Index(m, o, p / 2 * 2)
      && (idx - 1) / 2 == Index(m, o + 1, p / 2)
  {
    assert Pow2(m - o) == 2 * Pow2(m - o - 1);
  }

  lemma ChildIndex(m: nat, o: nat, p: nat)
    requires 0 < o <= m && p < Pow2(m - o)
    ensures 2 * p + 1 < Pow2(m - o + 1)
    ensures 2 * Index(m, o, p) + 1 == Index(m, o - 1, 2 * p)
  {
    assert Pow2(m - o + 1) == 2 * Pow2(m - o);
  }

  // ------------------------------------------------------------------ setting bits

  function WithBit(words: seq<nat>, idx: nat, flag: bool): seq<nat>
    requires idx / BITS < |words|
  {
    var w, k := words[idx / BITS], BITS - 1 - idx % BITS;
    words[idx / BITS := if flag then SetBit(w, k) else ClearBit(w, k)]
  }

  lemma WithBitBits(words: seq<nat>, idx: nat, flag: bool, j: nat)
    requires idx / BITS < |words|
    ensures BitAt(WithBit(words, idx, flag), j) == if j == idx then flag else BitAt(words, j)
  {
    if j / BITS == idx / BITS {
      SetBitBits(words[idx / BITS], BITS - 1 - idx % BITS, BITS - 1 - j % BITS);
    }
  }

  /** The bit behind the tree belongs to no node; its parent, as the macro computes it, is the first leaf. */
  lemma LastRow(m: nat, o: nat, p: nat)
    requires o <= m && p < Pow2(m - o)
    ensures Index(m, o, p) < RowEnd(m, 0) == Pow2(m + 1) - 1 && RowEnd(m, 0) == Pow2(m) - 1 + Pow2(m)
    ensures RowEnd(m, 0) > 0
    ensures (RowEnd(m, 0) - 1) / 2 == Index(m, 0, 0)
  {
    Pow2Grows(m - o, m);
  }

  lemma BitWritten(m: nat, words: seq<nat>, r: Rows, o: nat, p: nat, flag: bool)
    requires BitsMatch(m, words, r) && o <= m && p < Pow2(m - o)
    ensures Index(m, o, p) / BITS < |words|
    ensures BitsMatch(m, WithBit(words, Index(m, o, p), flag), Put(r, o, p, flag))
  {
    hide Pow2, Bit, SetBit, ClearBit, BitAt;
    var idx := Index(m, o, p);
    IndexFits(m, o, p);
    var words' := WithBit(words, idx, flag);
    PutShaped(r, m, o, p, flag);
    LastRow(m, o, p);
    WithBitBits(words, idx, flag, RowEnd(m, 0));
    forall i | 0 <= i < |words'| ensures words'[i] < Pow2(BITS) {
      if i == idx / BITS {
        SetBitFits(words[i], BITS - 1 - idx % BITS, BITS);
      }
    }
    forall a: nat, q: nat | a <= m && q < Pow2(m - a)
      ensures BitAt(words', Index(m, a, q)) == At(Put(r, o, p, flag), a, q)
    {
      IndexInjective(m, o, p, a, q);
      WithBitBits(words, idx, flag, Index(m, a, q));
    }
  }

  // ---------------------------------------------------------------------- scanning

  /** `i` is the first set bit at or after `from`. */
  ghost predicate FirstSet(words: seq<nat>, from: nat, i: nat) {
    from <= i && BitAt(words, i) && forall j :: from <= j < i ==> !BitAt(words, j)
  }

  /** The shifting loop: the position, from the left, of the leftmost set bit, or `BITS` for 0. */
  method LeadingBit(w: nat) returns (bitIdx: nat)
    requires w < Pow2(BITS)
    ensures bitIdx == BITS - Length(w) && (w != 0 ==> bitIdx < BITS)
  {
    LengthFits(w, BITS);
    var copy := w;
    bitIdx := BITS;
    while copy != 0
      invariant bitIdx - Length(copy) == BITS - Length(w) && (bitIdx == BITS || w != 0)
    {
      bitIdx := bitIdx - 1;
      copy := copy / 2;
    }
  }

  lemma LeadingIsFirst(words: seq<nat>, k: nat)
    requires k < |words| && words[k] != 0 && words[k] < Pow2(BITS)
    ensures Length(words[k]) <= BITS && FirstSet(words, k * BITS, k * BITS + (BITS - Length(words[k])))
  {
    var w := words[k];
    LengthFits(w, BITS);
    TopBit(w, 0);
    assert Length(w) > 0;
    hide Pow2, Bit, Length;
    var i := k * BITS + (BITS - Length(w));
    InThatWord(k, BITS - Length(w));
    forall j | k * BITS <= j < i ensures !BitAt(words, j) {
      InThatWord(k, j - k * BITS);
      TopBit(w, BITS - 1 - j % BITS);
    }
  }

  lemma ZeroWord(words: seq<nat>, k: nat)
    requires k < |words| && words[k] == 0
    ensures forall j :: k * BITS <= j < (k + 1) * BITS ==> !BitAt(words, j)
  {
    forall j | k * BITS <= j < (k + 1) * BITS ensures !BitAt(words, j) {
      assert j / BITS == k;
      TopBit(0, BITS - 1 - j % BITS);
    }
  }

  /** The word loop and the shifting loop after it; some bit `t` ahead is set. */
  method ScanWords(words: array<nat>, start: nat, ghost t: nat) returns (i: nat)
    requires forall k :: 0 <= k < words.Length ==> words[k] < Pow2(BITS)
    requires start * BITS <= t && BitAt(words[..], t)
    ensures FirstSet(words[..], start * BITS, i) && i <= t
  {
    hide Pow2, Bit, BitAt;
    var wordIdx := start;
    InWord(words[..], t);
    while words[wordIdx] == 0
      invariant start <= wordIdx <= t / BITS < words.Length
      invariant forall j :: start * BITS <= j < wordIdx * BITS ==> !BitAt(words[..], j)
      decreases t / BITS - wordIdx
    {
      ZeroWord(words[..], wordIdx);
      assert t >= (wordIdx + 1) * BITS;
      wordIdx := wordIdx + 1;
    }
    var bitIdx := LeadingBit(words[wordIdx]);
    LeadingIsFirst(words[..], wordIdx);
    i := wordIdx * BITS + bitIdx;
  }

  lemma InWord(words: seq<nat>, t: nat)
    requires BitAt(words, t)
    ensures t / BITS < |words|
  {
  }

  /** `masked` keeps the lowest `n` bits of `w`. */
  ghost predicate IsLow(w: nat, n: nat, masked: nat) {
    forall k: nat :: Bit(masked, k) <==> k < n && Bit(w, k)
  }

  lemma MaskIsLow(w: nat, n: nat)
    ensures w % Pow2(n) < Pow2(n) && IsLow(w, n, w % Pow2(n))
  {
    forall k: nat ensures Bit(w % Pow2(n), k) <==> k < n && Bit(w, k) {
      LowBits(w, n, k);
    }
  }

  /** What masking the word of `idx` shows: the first set bit from `idx` on in that word, if there is one. */
  lemma MaskedIsFirst(words: seq<nat>, idx: nat, masked: nat)
    requires idx / BITS < |words| && IsLow(words[idx / BITS], BITS - idx % BITS, masked)
    requires Length(masked) <= BITS - idx % BITS
    ensures masked != 0 ==> FirstSet(words, idx, idx / BITS * BITS + (BITS - Length(masked)))
    ensures masked == 0 ==> forall j :: idx <= j < (idx / BITS + 1) * BITS ==> !BitAt(words, j)
  {
    hide Bit, BitAt, IsLow;
    var k := idx / BITS;
    var i := k * BITS + (BITS - Length(masked));
    if masked != 0 {
      TopBit(masked, 0);
      MaskedBit(words, idx, masked, BITS - Length(masked));
    }
    forall j | idx <= j < i ensures !BitAt(words, j) {
      MaskedBit(words, idx, masked, j - k * BITS);
      TopBit(masked, BITS - 1 - (j - k * BITS));
    }
  }

  /** From `idx` to the end of its word, the bits are those of the masked word. */
  lemma MaskedBit(words: seq<nat>, idx: nat, masked: nat, b: nat)
    requires idx / BITS < |words| && IsLow(words[idx / BITS], BITS - idx % BITS, masked) && idx % BITS <= b < BITS
    ensures BitAt(words, idx / BITS * BITS + b) <==> Bit(masked, BITS - 1 - b)
  {
    hide Bit;
    InThatWord(idx / BITS, b);
  }

  lemma InThatWord(k: nat, b: nat)
    requires b < BITS
    ensures (k * BITS + b) / BITS == k && (k * BITS + b) % BITS == b
  {
  }

  /** The first set bit from a cleared leftmost node on is the new leftmost node of the row. */
  lemma FirstInRow(m: nat, words: seq<nat>, r: Rows, o: nat, p: nat, q: nat, i: nat)
    requires BitsMatch(m, words, r) && o <= m && p < Pow2(m - o) && q < Pow2(m - o) && r[o][q]
    requires forall j :: 0 <= j < p ==> !r[o][j]
    requires Index(m, o, p) <= i <= Index(m, o, q) && BitAt(words, i)
    requires forall j :: Index(m, o, p) <= j < i ==> !BitAt(words, j)
    ensures i < RowEnd(m, o) && IsFirst(r[o], i - RowStart(m, o))
  {
    hide Pow2, BitAt;
    IndexFits(m, o, q);
    var f := i - RowStart(m, o);
    assert At(r, o, f) by {
      assert BitAt(words, Index(m, o, f)) == At(r, o, f);
    }
    forall j | 0 <= j < f ensures !r[o][j] {
      if j >= p {
        assert BitAt(words, Index(m, o, j)) == At(r, o, j);
      }
    }
  }

  /** No bit of the row is set between two positions whose flags are clear. */
  lemma ClearBits(m: nat, words: seq<nat>, r: Rows, o: nat, p: nat, j: nat)
    requires BitsMatch(m, words, r) && o <= m && p < Pow2(m - o) && RowStart(m, o) <= j <= Index(m, o, p)
    requires forall k :: 0 <= k <= p ==> !r[o][k]
    ensures !BitAt(words, j)
  {
    assert BitAt(words, Index(m, o, j - RowStart(m, o))) == At(r, o, j - RowStart(m, o));
  }

  /** The mask is never built by a shift by 64: only the root has bit position 0 in the first word of its row. */
  lemma NoFullShift(m: nat, o: nat, p: nat, q: nat)
    requires o <= m && p < Pow2(m - o) && q < Pow2(m - o) && p != q
    requires Index(m, o, p) / BITS == RowStart(m, o) / BITS
    ensures Index(m, o, p) % BITS > 0
  {
    hide Pow2;
    PowZero();
    TwoPow(m - o);
    if Index(m, o, p) % BITS == 0 {
      Aligned(RowStart(m, o), Index(m, o, p));
    }
  }

  /** The first index of a word is the only multiple of 64 in it, and it is even. */
  lemma Aligned(a: nat, b: nat)
    requires a <= b && a / BITS == b / BITS && b % BITS == 0
    ensures a == b && a % 2 == 0
  {
    assert b == b / BITS * BITS;
    assert b % 2 == 0;
  }

  /** The leftmost index of a row, right up to the removal of `p`. */
  ghost predicate StaleMin(row: seq<bool>, i: int, p: nat) {
    0 <= i <= |row| && (forall j :: 0 <= j < i ==> !row[j]) && (i == p || i == |row| || row[i])
  }

  class Allocator {
    const m: nat
    const maxPages: nat
    const words: array<nat>
    const mins: array<nat>
    const counts: array<nat>
    var freeCount: nat
    ghost var rows: Rows
    ghost var live: map<nat, nat>

    ghost predicate Inv()
      reads this`rows, words, mins, counts
    {
      && words != mins && words != counts && mins != counts
      && BitsMatch(m, words[..], rows) && Summaries(m, rows, mins[..], counts[..])
    }

    /** The tree as `page_init` sets it up: nothing is available yet. */
    constructor (m: nat, maxPages: nat)
      requires maxPages <= Pow2(m)
      ensures Valid() && this.m == m && this.maxPages == maxPages && freeCount == 0 && live == map[]
      ensures forall x: nat :: !Free(rows, x)
    {
      hide Pow2, Weight, Count, Free, BitsMatch, Summaries, BitAt, Bit, Tiling;
      this.m := m;
      this.maxPages := maxPages;
      EnoughWords(m);
      words := new nat[Pow2(m + 1) / BITS + 1](_ => 0);
      mins := new nat[m + 1](_ => 0);
      counts := new nat[m + 1](_ => 0);
      freeCount := 0;
      rows := EmptyRows(m);
      live := map[];
      new;
      var order := 0;
      while order <= m
        invariant 0 <= order <= m + 1
        invariant forall o :: 0 <= o < order ==> mins[o] == RowEnd(m, o)
        modifies mins
      {
        mins[order] := RowEnd(m, order);
        order := order + 1;
      }
      EmptyMatches(m, words[..]);
      EmptySummaries(m, mins[..], counts[..]);
      EmptyWeight(m, m + 1);
    }

    method IsAvailable(idx: nat) returns (available: bool)
      requires idx / BITS < words.Length
      ensures available == BitAt(words[..], idx)
    {
      available := Bit(words[idx / BITS], BITS - 1 - idx % BITS);
    }

    /** The scan for the next available node of a row whose leftmost node `p` was just cleared. */
    method NextAvailable(order: nat, idx: nat, ghost p: nat, ghost q: nat) returns (i: nat)
      requires BitsMatch(m, words[..], rows) && order <= m
      requires p < q < Pow2(m - order) && idx == Index(m, order, p) && rows[order][q]
      requires forall j :: 0 <= j <= p ==> !rows[order][j]
      ensures idx <= i <= Index(m, order, q) && BitAt(words[..], i)
      ensures forall j :: idx <= j < i ==> !BitAt(words[..], j)
    {
      hide Pow2, Bit, BitAt, Length;
      ghost var ws, t := words[..], Index(m, order, q);
      IndexFits(m, order, q);
      assert BitAt(ws, t) == At(rows, order, q);
      InWord(ws, t);
      var wordIdx := idx / BITS;
      if words[wordIdx] != 0 && wordIdx == RowStart(m, order) / BITS {
        NoFullShift(m, order, p, q);
        // only the bits from that of `idx` on: those before it may belong to the row above
        var copy := words[wordIdx] % Pow2(BITS - idx % BITS);
        MaskIsLow(words[wordIdx], BITS - idx % BITS);
        LengthFits(copy, BITS - idx % BITS);
        MaskedIsFirst(ws, idx, copy);
        var bitIdx := LeadingBitAfter(copy, idx % BITS);
        i := wordIdx * BITS + bitIdx;
        assert i <= t;
        var found := IsAvailable(i);
        if found {
          return;
        }
        assert copy == 0;
        i := ScanWords(words, wordIdx + 1, t);
      } else {
        i := ScanWords(words, wordIdx, t);
        NotBefore(m, ws, rows, order, p, i);
      }
    }

    /** `_btree_update_metadata_after_removal`. */
    method UpdateAfterRemoval(order: nat, idx: nat, ghost p: nat)
      requires words != mins && words != counts && mins != counts && BitsMatch(m, words[..], rows)
      requires mins.Length == m + 1 && counts.Length == m + 1 && order <= m
      requires p < Pow2(m - order) && idx == Index(m, order, p) && !rows[order][p]
      requires counts[order] == Count(rows[order], |rows[order]|)
      requires StaleMin(rows[order], mins[order] - RowStart(m, order), p)
      modifies mins
      ensures IsFirst(rows[order], mins[order] - RowStart(m, order))
      ensures forall o :: 0 <= o <= m && o != order ==> mins[o] == old(mins[o])
    {
      hide Pow2, Bit, BitAt, Count, Length;
      ghost var row := rows[order];
      CountNone(row, |row|);
      IndexFits(m, order, p);
      var end := RowEnd(m, order);
      if counts[order] != 0 {
        ghost var q: nat :| q < |row| && row[q];
        if idx == mins[order] {
          var i := NextAvailable(order, idx, p, q);
          FirstInRow(m, words[..], rows, order, p, q, i);
          mins[order] := if i > end then end else i;
        }
      } else {
        mins[order] := end;
      }
    }

    /** Mark a node available and account for it. */
    method Add(idx: nat, order: nat, ghost p: nat)
      requires Inv() && order <= m && p < Pow2(m - order) && idx == Index(m, order, p) && !At(rows, order, p)
      modifies words, mins, counts, this`rows
      ensures Inv() && rows == Put(old(rows), order, p, true)
    {
      hide Pow2, SetBit, Count, IsFirst;
      BitWritten(m, words[..], rows, order, p, true);
      ghost var r, ns, cs := rows, mins[..], counts[..];
      words[idx / BITS] := SetBit(words[idx / BITS], BITS - 1 - idx % BITS);
      rows := Put(rows, order, p, true);
      counts[order] := counts[order] + 1;
      if idx < mins[order] {
        mins[order] := idx;
      }
      Added(m, r, ns, cs, order, p);
    }

    /** Mark a node unavailable and account for it. */
    method Drop(idx: nat, order: nat, ghost p: nat)
      requires Inv() && At(rows, order, p) && order <= m && p < Pow2(m - order) && idx == Index(m, order, p)
      modifies words, mins, counts, this`rows
      ensures Inv() && rows == Put(old(rows), order, p, false)
    {
      hide Pow2, ClearBit, Count;
      BitWritten(m, words[..], rows, order, p, false);
      words[idx / BITS] := ClearBit(words[idx / BITS], BITS - 1 - idx % BITS);
      CountPut(rows[order], |rows[order]|, p, false);
      PutShaped(rows, m, order, p, false);
      rows := Put(rows, order, p, false);
      counts[order] := counts[order] - 1;
      UpdateAfterRemoval(order, idx, p);
    }

    /** Mark two available buddies unavailable and account for them; `p` is the left one. */
    method DropPair(idx: nat, order: nat, ghost p: nat)
      requires
        && Inv() && At(rows, order, p) && At(rows, order, p + 1) && order <= m && p + 1 < Pow2(m - order)
        && idx == Index(m, order, p)
      modifies words, mins, counts, this`rows
      ensures Inv() && rows == Put(Put(old(rows), order, p, false), order, p + 1, false)
    {
      hide Pow2, ClearBit, Count, BitsMatch, Bit;
      ShapeOf(m, words[..], rows);
      BitWritten(m, words[..], rows, order, p, false);
      words[idx / BITS] := ClearBit(words[idx / BITS], BITS - 1 - idx % BITS);
      CountPut(rows[order], |rows[order]|, p, false);
      PutShaped(rows, m, order, p, false);
      rows := Put(rows, order, p, false);
      BitWritten(m, words[..], rows, order, p + 1, false);
      words[(idx + 1) / BITS] := ClearBit(words[(idx + 1) / BITS], BITS - 1 - (idx + 1) % BITS);
      CountPut(rows[order], |rows[order]|, p + 1, false);
      PutShaped(rows, m, order, p + 1, false);
      rows := Put(rows, order, p + 1, false);
      counts[order] := counts[order] - 2;
      UpdateAfterRemoval(order, idx, p);
    }

    method SiblingAvailable(idx: nat, ghost order: nat, ghost p: nat) returns (available: bool)
      requires BitsMatch(m, words[..], rows) && order <= m && p < Pow2(m - order) && idx == Index(m, order, p)
      ensures available == At(rows, order, Sibling(p)) && (available ==> idx > 0 && order < m)
    {
      hide Bit, BitAt;
      if idx == 0 {
        OnlyRoot(m, rows, order, p);
        return false;
      }
      NotRoot(m, order, p);
      SiblingIndex(m, order, p);
      var sibling := idx - 1 + idx % 2 * 2;
      IndexFits(m, order, Sibling(p));
      assert BitAt(words[..], Index(m, order, Sibling(p))) == At(rows, order, Sibling(p));
      available := IsAvailable(sibling);
    }

    /** `_btree_mark_available`: afterwards exactly the pages of that node are free in addition. */
    method MarkAvailable(idx0: nat, order0: nat, ghost p0: nat)
      requires Inv() && Tiling(rows, m) && order0 <= m && p0 < Pow2(m - order0) && idx0 == Index(m, order0, p0)
      requires forall x: nat :: Up(x, order0) == p0 ==> !Free(rows, x) && x != VGA_PAGE
      modifies words, mins, counts, this`rows
      ensures Inv() && Tiling(rows, m)
      ensures forall x: nat :: Free(rows, x) <==> Free(old(rows), x) || Up(x, order0) == p0
      ensures Weight(rows, m + 1) == Weight(old(rows), m + 1) + Pow2(order0)
    {
      hide Pow2, Count, BitsMatch, Summaries, Free, Nested, NoTwinsBut, Weight;
      var idx: nat, order: nat := idx0, order0;
      ghost var p: nat := p0;
      SetNode(rows, m, order, p);
      WeightPut(rows, m + 1, order, p, true);
      Distribute(Pow2(order), 0, 0);
      UpRange(VGA_PAGE, order, p);
      assert !(p * Pow2(order) <= VGA_PAGE < (p + 1) * Pow2(order));
      Add(idx, order, p);
      var join := SiblingAvailable(idx, order, p);
      while join
        invariant Inv() && order <= m && p < Pow2(m - order) && idx == Index(m, order, p)
        invariant Shaped(rows, m) && Nested(rows) && NoTwinsBut(rows, order, p) && At(rows, order, p)
        invariant forall x: nat :: Free(rows, x) <==> Free(old(rows), x) || Up(x, order0) == p0
        invariant Weight(rows, m + 1) == Weight(old(rows), m + 1) + Pow2(order0)
        invariant join == At(rows, order, Sibling(p)) && (join ==> order < m)
        decreases m - order
      {
        LeftTwin(rows, order, p);
        JoinNodes(rows, m, order, p / 2 * 2);
        JoinedWeight(rows, m, order, p / 2 * 2);
        Join(idx, order, p);
        SiblingIndex(m, order, p);
        idx, order, p := (idx - 1) / 2, order + 1, p / 2;
        join := SiblingAvailable(idx, order, p);
      }
      LoneNode(rows, order, p);
    }

    /** One round of the coalescing loop. */
    method Join(idx: nat, order: nat, ghost p: nat)
      requires Inv() && order < m && p < Pow2(m - order) && idx == Index(m, order, p) && p / 2 < Pow2(m - order - 1)
      requires At(rows, order, p / 2 * 2) && At(rows, order, p / 2 * 2 + 1) && !At(rows, order + 1, p / 2)
      modifies words, mins, counts, this`rows
      ensures Shaped(old(rows), m) && p / 2 * 2 + 1 < Pow2(m - order) && Sibling(p / 2 * 2) == p / 2 * 2 + 1
      ensures Inv() && rows == Joined(old(rows), order, p / 2 * 2)
    {
      hide Pow2, Count, BitsMatch, Summaries;
      assert Shaped(rows, m) by {
        assert Inv();
        ShapeOf(m, words[..], rows);
      }
      SiblingIndex(m, order, p);
      var left := idx + idx % 2 - 1;
      DropPair(left, order, p / 2 * 2);
      Add((idx - 1) / 2, order + 1, p / 2);
    }

    /** `_btree_mark_range_available`: cut the range into aligned nodes, each as large as fits. */
    method MarkRange(leaf0: nat, npages0: nat, ghost l0: nat)
      requires Inv() && Tiling(rows, m) && l0 + npages0 <= Pow2(m) && leaf0 == Index(m, 0, l0)
      requires forall x: nat :: l0 <= x < l0 + npages0 ==> !Free(rows, x) && x != VGA_PAGE
      modifies words, mins, counts, this`rows
      ensures Inv() && Tiling(rows, m)
      ensures forall x: nat :: Free(rows, x) <==> Free(old(rows), x) || l0 <= x < l0 + npages0
      ensures Weight(rows, m + 1) == Weight(old(rows), m + 1) + npages0
    {
      hide Pow2, Inv, Nested, NoTwins, Free, Weight;
      var leaf: nat, npages: nat := leaf0, npages0;
      ghost var l: nat := l0;
      while npages != 0
        invariant Inv() && Tiling(rows, m) && l + npages == l0 + npages0 && l0 <= l && leaf == Index(m, 0, l)
        invariant forall x: nat :: Free(rows, x) <==> Free(old(rows), x) || l0 <= x < l
        invariant Weight(rows, m + 1) == Weight(old(rows), m + 1) + (l - l0)
        decreases npages
      {
        var idx, order, p := LargestNode(leaf, npages, l);
        forall x: nat | Up(x, order) == p ensures l <= x < l + Pow2(order) {
          NodePages(x, order, p, l);
        }
        forall x: nat | l <= x < l + Pow2(order) ensures Up(x, order) == p {
          NodePages(x, order, p, l);
        }
        MarkAvailable(idx, order, p);
        npages := npages - Pow2(order);
        leaf := leaf + Pow2(order);
        l := l + Pow2(order);
      }
    }

    /** The inner loop: climb while the node is a left child and its parent still fits. */
    method LargestNode(leaf: nat, npages: nat, ghost l: nat) returns (idx: nat, order: nat, ghost p: nat)
      requires npages > 0 && l + npages <= Pow2(m) && leaf == Index(m, 0, l)
      ensures order <= m && p < Pow2(m - order) && idx == Index(m, order, p)
      ensures p * Pow2(order) == l && Pow2(order) <= npages
    {
      idx, order, p := leaf, 0, l;
      while idx % 2 == 1 && 2 * Pow2(order) <= npages
        invariant order <= m && p < Pow2(m - order) && idx == Index(m, order, p)
        invariant p * Pow2(order) == l && Pow2(order) <= npages
        decreases idx
      {
        hide Pow2;
        NotRoot(m, order, p);
        SiblingIndex(m, order, p);
        Halves(p / 2, order + 1);
        idx, order, p := (idx - 1) / 2, order + 1, p / 2;
        TwoPow(order);
      }
    }

    /** Mark two buddies available and account for them; only the left one can become the leftmost. */
    method AddPair(idx: nat, order: nat, ghost p: nat)
      requires Inv() && order <= m && p + 1 < Pow2(m - order) && idx == Index(m, order, p) && p % 2 == 0
      requires !At(rows, order, p) && !At(rows, order, p + 1)
      modifies words, mins, counts, this`rows
      ensures Inv() && rows == Put(Put(old(rows), order, p, true), order, p + 1, true)
    {
      hide Pow2, SetBit, Count, IsFirst, BitsMatch, Summaries, Bit;
      ShapeOf(m, words[..], rows);
      Sizes(m, rows, mins[..], counts[..]);
      PutShaped(rows, m, order, p, true);
      ghost var r, ns, cs := rows, mins[..], counts[..];
      BitWritten(m, words[..], rows, order, p, true);
      words[idx / BITS] := SetBit(words[idx / BITS], BITS - 1 - idx % BITS);
      rows := Put(rows, order, p, true);
      BitWritten(m, words[..], rows, order, p + 1, true);
      words[(idx + 1) / BITS] := SetBit(words[(idx + 1) / BITS], BITS - 1 - (idx + 1) % BITS);
      rows := Put(rows, order, p + 1, true);
      counts[order] := counts[order] + 2;
      if idx < mins[order] {
        mins[order] := idx;
      }
      AddedPair(m, r, ns, cs, order, p);
      assert mins[..] == ns[order := if idx < ns[order] then idx else ns[order]];
      assert counts[..] == cs[order := cs[order] + 2];
    }

    /** One round of the splitting loop. */
    method Split(idx: nat, order: nat, ghost p: nat)
      requires Inv() && 0 < order <= m && p < Pow2(m - order) && idx == Index(m, order, p) && At(rows, order, p)
      requires 2 * p + 1 < Pow2(m - order + 1) && !At(rows, order - 1, 2 * p) && !At(rows, order - 1, 2 * p + 1)
      modifies words, mins, counts, this`rows
      ensures Shaped(old(rows), m) && Inv() && rows == Halved(old(rows), order, p)
    {
      hide Pow2, Count, BitsMatch, Summaries;
      ShapeOf(m, words[..], rows);
      ChildIndex(m, order, p);
      Drop(idx, order, p);
      AddPair(2 * idx + 1, order - 1, 2 * p);
    }

    /** The splitting loop: the leftmost part of the node, of the wanted order, stays available. */
    method SplitDown(idx0: nat, smallest: nat, actual0: nat, ghost p0: nat) returns (idx: nat, ghost p: nat)
      requires Inv() && Tiling(rows, m) && smallest <= actual0 <= m && p0 < Pow2(m - actual0)
      requires idx0 == Index(m, actual0, p0)
      requires At(rows, actual0, p0)
      modifies words, mins, counts, this`rows
      ensures Inv() && Shaped(rows, m) && Nested(rows) && NoTwinsBut(rows, smallest, p) && At(rows, smallest, p)
      ensures p < Pow2(m - smallest) && idx == Index(m, smallest, p) && p * Pow2(smallest) == p0 * Pow2(actual0)
      ensures forall x: nat :: Free(rows, x) <==> Free(old(rows), x)
      ensures Weight(rows, m + 1) == Weight(old(rows), m + 1)
    {
      hide Pow2, Inv, Nested, NoTwinsBut, Free, Weight, At;
      var order: nat := actual0;
      idx, p := idx0, p0;
      NoneTwin(rows, order, p);
      while order != smallest
        invariant
          && smallest <= order <= m && Inv() && Shaped(rows, m) && Nested(rows) && NoTwinsBut(rows, order, p)
          && At(rows, order, p)
        invariant p < Pow2(m - order) && idx == Index(m, order, p) && p * Pow2(order) == p0 * Pow2(actual0)
        invariant forall x: nat :: Free(rows, x) <==> Free(old(rows), x)
        invariant Weight(rows, m + 1) == Weight(old(rows), m + 1)
        decreases order
      {
        HalveNode(rows, m, order, p);
        HalvedWeight(rows, m, order, p);
        HalveAt(rows, m, order, p);
        ChildIndex(m, order, p);
        Halves(p, order);
        Split(idx, order, p);
        idx, order, p := 2 * idx + 1, order - 1, 2 * p;
      }
    }

    /** The walk to the first leaf under a node. */
    method LeftmostLeaf(idx: nat, order: nat, ghost p: nat) returns (leaf: nat)
      requires order <= m && p < Pow2(m - order) && idx == Index(m, order, p)
      ensures p * Pow2(order) < Pow2(m) && leaf == Index(m, 0, p * Pow2(order))
    {
      hide Pow2;
      leaf := idx;
      var left: nat := order;
      ghost var q: nat := p;
      while left > 0
        invariant left <= order && q < Pow2(m - left) && leaf == Index(m, left, q) && q * Pow2(left) == p * Pow2(order)
      {
        ChildIndex(m, left, q);
        Halves(q, left);
        leaf, left, q := 2 * leaf + 1, left - 1, 2 * q;
      }
      assert Pow2(0) == 1 by {
        PowZero();
      }
    }

    /** `_btree_alloc`: split node `p0` down to the wanted order, take its first part, give the rest back. */
    method AllocAt(npages: nat, idx0: nat, smallest: nat, actual0: nat, ghost p0: nat) returns (page: nat)
      requires Inv() && Tiling(rows, m) && smallest <= actual0 <= m && p0 < Pow2(m - actual0)
      requires idx0 == Index(m, actual0, p0)
      requires At(rows, actual0, p0) && 0 < npages <= Pow2(smallest)
      requires freeCount == Weight(rows, m + 1) && !Free(rows, 0) && !Free(rows, VGA_PAGE)
      modifies this`rows, this`freeCount, words, mins, counts
      ensures Inv() && Tiling(rows, m) && freeCount == Weight(rows, m + 1) && freeCount == old(freeCount) - npages
      ensures page == p0 * Pow2(actual0) && page > 0 && page + npages <= Pow2(m)
      ensures forall x: nat :: page <= x < page + npages ==> Free(old(rows), x)
      ensures forall x: nat :: Free(rows, x) <==> Free(old(rows), x) && !(page <= x < page + npages)
    {
      hide Pow2, Inv, Nested, NoTwinsBut, NoTwins, Free, Weight, At;
      var idx, p := SplitDown(idx0, smallest, actual0, p0);
      ghost var r := rows;
      ClearNode(rows, m, smallest, p);
      NodeWeight(rows, m, smallest, p);
      Drop(idx, smallest, p);
      var leaf := LeftmostLeaf(idx, smallest, p);
      page := leaf - RowStart(m, 0);
      NodeInTree(m, smallest, p);
      TakenPages(r, smallest, p);
      assert Free(r, page);
      MarkRange(leaf + npages, Pow2(smallest) - npages, page + npages);
      freeCount := freeCount - npages;
    }

    /** The allocator between calls; `live` maps the first page of every allocation to its length. */
    ghost predicate Valid()
      reads this, words, mins, counts
    {
      && maxPages <= Pow2(m) && Inv() && Tiling(rows, m) && freeCount == Weight(rows, m + 1)
      && Allowed(rows, maxPages) && LiveOk(live, rows, maxPages)
    }

    /** The loop for the smallest order that fits. */
    method LeastOrder(npages: nat) returns (order: nat)
      requires 0 < npages <= Pow2(m)
      ensures order <= m && IsLeastOrder(order, npages)
    {
      order := 0;
      while Pow2(order) < npages
        invariant order <= m && (order > 0 ==> Pow2(order - 1) < npages)
        decreases m - order
      {
        order := order + 1;
      }
    }

    /** Allocate from the available node `p`, which starts below the bound. */
    method Take(npages: nat, idx: nat, smallest: nat, actual: nat, ghost p: nat, ghost bound: nat) returns (page: nat)
      requires Valid() && smallest <= actual <= m && p < Pow2(m - actual) && idx == Index(m, actual, p)
      requires At(rows, actual, p) && 0 < npages && IsLeastOrder(smallest, npages) && p * Pow2(actual) < bound
      modifies this, words, mins, counts
      ensures Valid() && !NoBlock(old(rows), smallest, bound)
      ensures page != 0 && page !in old(live) && live == old(live)[page := npages]
      ensures freeCount == old(freeCount) - npages
      ensures page < bound && forall x: nat :: page <= x < page + npages ==> Free(old(rows), x)
      ensures forall x: nat :: Free(rows, x) <==> Free(old(rows), x) && !(page <= x < page + npages)
    {
      hide Pow2, Inv, Nested, NoTwins, Free, Weight, At, NoBlock, IsLeastOrder, LiveOk;
      LeastFits(smallest, npages);
      page := AllocAt(npages, idx, smallest, actual, p);
      assert page + npages <= maxPages by {
        assert Free(old(rows), page + npages - 1);
      }
      FoundBlock(old(rows), smallest, actual, p, bound);
      LiveAdded(live, old(rows), rows, maxPages, page, npages);
      live := live[page := npages];
    }

    /**
     * `page_alloc_n_bounded`: fails exactly when no aligned block that is free throughout starts
     * below the bound; otherwise hands out pages that were free and belonged to nobody.
     */
    method Alloc(npages: nat, maxPaddr: nat) returns (page: nat)
      requires Valid() && 0 < npages <= Pow2(m) && maxPaddr < Pow2(BITS)
      modifies this, words, mins, counts
      ensures Valid()
      ensures forall s: nat ::
        IsLeastOrder(s, npages) ==> (page == 0 <==> NoBlock(old(rows), s, PageBound(maxPaddr, npages)))
      ensures page == 0 ==> rows == old(rows) && live == old(live) && freeCount == old(freeCount)
      ensures page != 0 ==>
        page !in old(live) && live == old(live)[page := npages] && freeCount == old(freeCount) - npages
      ensures page != 0 ==>
        page < PageBound(maxPaddr, npages) && forall x: nat :: page <= x < page + npages ==> Free(old(rows), x)
      ensures page != 0 && npages <= maxPaddr / PAGE_SIZE + 1 ==> page + npages <= maxPaddr / PAGE_SIZE
      ensures forall x: nat :: Free(rows, x) <==> Free(old(rows), x) && !(page != 0 && page <= x < page + npages)
    {
      hide Pow2, BitsMatch, Summaries, Nested, NoTwins, Free, Weight, At, NoBlock, IsLeastOrder, LiveOk, PageBound,
           Count;
      BoundIs(maxPaddr, npages);
      var smallest := LeastOrder(npages);
      LeastIsUnique(npages, smallest);
      if npages > freeCount {
        TooFewPages(rows, m, smallest, npages, PageBound(maxPaddr, npages));
        return 0;
      }
      var bound := PageBound(maxPaddr, npages);
      NoneYet(rows, smallest, bound);
      var actual: nat := smallest;
      while actual <= m
        invariant smallest <= actual <= m + 1 && NoneBelow(rows, smallest, actual, bound)
        invariant Valid() && rows == old(rows) && live == old(live) && freeCount == old(freeCount)
      {
        SummaryAt(m, rows, mins[..], counts[..], actual);
        if counts[actual] != 0 {
          var idx := mins[actual];
          ghost var p := idx - RowStart(m, actual);
          var start := (idx - RowStart(m, actual)) * Pow2(actual);
          if start < bound {
            page := Take(npages, idx, smallest, actual, p, bound);
            return;
          }
        }
        RowDone(m, rows, mins[..], counts[..], smallest, actual, bound);
        actual := actual + 1;
      }
      NothingFits(rows, m, smallest, bound);
      page := 0;
    }

    /** `page_alloc_n`: fails exactly when no aligned block of the wanted order is free throughout. */
    method AllocAnywhere(npages: nat) returns (page: nat)
      requires Valid() && 0 < npages <= Pow2(m) && m <= 51
      modifies this, words, mins, counts
      ensures Valid()
      ensures forall s: nat :: IsLeastOrder(s, npages) ==> (page == 0 <==> NoFreeBlock(old(rows), s))
      ensures page != 0 ==> page !in old(live) && live == old(live)[page := npages]
      ensures page != 0 ==> forall x: nat :: page <= x < page + npages ==> Free(old(rows), x)
      ensures page == 0 ==> live == old(live)
      ensures forall x: nat :: Free(rows, x) <==> Free(old(rows), x) && !(page != 0 && page <= x < page + npages)
    {
      hide Pow2, Inv, Nested, NoTwins, Free, Weight, At, NoBlock, IsLeastOrder, LiveOk, NoFreeBlock;
      Unbounded(rows, m, npages);
      page := Alloc(npages, Pow2(BITS) - 1);
    }

    /** `page_free_n`, of pages handed out before. */
    method FreePages(page: nat, npages: nat)
      requires Valid() && page in live && live[page] == npages
      modifies this, words, mins, counts
      ensures Valid() && live == old(live) - {page} && freeCount == old(freeCount) + npages
      ensures forall x: nat :: Free(rows, x) <==> Free(old(rows), x) || page <= x < page + npages
    {
      hide Pow2, Inv, Nested, NoTwins, Free, Weight, LiveOk;
      LiveRemoved(live, rows, maxPages, page);
      ghost var r := rows;
      MarkRange(Pow2(m) - 1 + page, npages, page);
      freeCount := freeCount + npages;
      live := live - {page};
      StillLive(live, r, rows, maxPages, page, npages);
    }

    /** `page_add_range`, of bytes `start0 .. end`: whole pages in it become free, never page 0. */
    method AddRange(start0: nat, end: nat)
      requires Valid() && start0 < end < Pow2(BITS)
      requires RangeFirst(start0) <= end / PAGE_SIZE || (start0 == 0 && end <= PAGE_SIZE)
      requires end / PAGE_SIZE <= maxPages
      requires forall x: nat :: RangeFirst(start0) <= x < end / PAGE_SIZE ==> !Free(rows, x) && x != VGA_PAGE
      requires forall a :: a in live ==> a + live[a] <= RangeFirst(start0) || end / PAGE_SIZE <= a
      modifies this, words, mins, counts
      ensures Valid() && live == old(live)
      ensures forall x: nat :: Free(rows, x) <==> Free(old(rows), x) || RangeFirst(start0) <= x < end / PAGE_SIZE
    {
      hide Pow2, Inv, Nested, NoTwins, Free, Weight, LiveOk;
      var start := start0;
      if start == 0 {
        start := PAGE_SIZE;
        if end <= start {
          return;
        }
      }
      var first := (start + PAGE_SIZE - 1) / PAGE_SIZE;
      RangeIsMeant(start, end);
      var npages := RangePages(start, end);
      ghost var r := rows;
      MarkRange(Pow2(m) - 1 + first, npages, first);
      freeCount := freeCount + npages;
      StillLive(live, r, rows, maxPages, first, npages);
    }

    /** `page_mark_reserved`: that page, and no other, stops being free. */
    method MarkReserved(page: nat)
      requires Valid()
      modifies this, words, mins, counts
      ensures Valid() && live == old(live)
      ensures forall x: nat :: Free(rows, x) <==> Free(old(rows), x) && x != page
    {
      hide Pow2, BitsMatch, Summaries, Nested, NoTwins, Free, Weight, LiveOk, At;
      if page > maxPages {
        return;
      }
      var leaf := Pow2(m) - 1 + page;
      var found, idx, order, p := Ancestor(leaf, page);
      if !found {
        return;
      }
      ghost var r, lo := rows, p * Pow2(order);
      ClearNode(rows, m, order, p);
      NoneTwin(rows, order, p);
      NodeWeight(rows, m, order, p);
      NodeInTree(m, order, p);
      TakenPages(rows, order, p);
      Drop(idx, order, p);
      var start := LeftmostLeaf(idx, order, p);
      var end := start + Pow2(order);
      assert lo <= page < lo + Pow2(order);
      MarkRange(start, leaf - start, lo);
      MarkRange(leaf + 1, end - leaf - 1, page + 1);
      freeCount := freeCount - 1;
      FewerFree(live, r, rows, maxPages);
    }

    /**
     * The walk up to the available node over a page.  For the page behind a full tree it starts at the bit
     * behind the tree and goes on from the first leaf, over which nothing is available.
     */
    method Ancestor(leaf: nat, page: nat) returns (found: bool, idx: nat, order: nat, ghost p: nat)
      requires Inv() && Shaped(rows, m) && page <= Pow2(m) && leaf == Pow2(m) - 1 + page && !Free(rows, 0)
      ensures found <==> Free(rows, page)
      ensures found ==>
        order <= m && p < Pow2(m - order) && idx == Index(m, order, p) && At(rows, order, p) && Up(page, order) == p
    {
      hide Pow2, Bit, BitAt, Summaries;
      LastRowFirst(m);
      idx, order, p := leaf, 0, page;
      ghost var from, o, inside := page, 0, page < Pow2(m);
      found := Available(idx, inside, o, p);
      while idx != 0 && !found
        invariant inside ==> OnWay(m, rows, idx, o, p, from, found)
        invariant !inside ==> idx == RowEnd(m, 0) && !found && page == Pow2(m)
        invariant inside && page < Pow2(m) ==> from == page && order == o
        invariant inside && page == Pow2(m) ==> from == 0
        decreases idx
      {
        if inside {
          NextOnWay(m, rows, idx, o, p, from);
        }
        idx, order := (idx - 1) / 2, order + 1;
        if inside {
          o, p := o + 1, p / 2;
        } else {
          inside, from, o, p := true, 0, 0, 0;
        }
        found := Available(idx, inside, o, p);
      }
      WayEnds(m, rows, idx, o, p, from, found);
      if page == Pow2(m) {
        NoneBehind(rows, m);
      }
    }

    method Available(idx: nat, ghost inside: bool, ghost o: nat, ghost p: nat) returns (available: bool)
      requires BitsMatch(m, words[..], rows) && (inside ==> o <= m && p < Pow2(m - o) && idx == Index(m, o, p))
      requires !inside ==> idx == RowEnd(m, 0)
      ensures available == (inside && At(rows, o, p))
    {
      hide Bit, BitAt;
      LastRowFirst(m);
      if inside {
        IndexFits(m, o, p);
        assert BitAt(words[..], Index(m, o, p)) == At(rows, o, p);
      }
      available := IsAvailable(idx);
    }
  }

  /** The walk has come to the node of order `o` over page `from`, past none that is available. */
  ghost predicate OnWay(m: nat, r: Rows, idx: nat, o: nat, p: nat, from: nat, found: bool) {
    && o <= m && p < Pow2(m - o) && idx == Index(m, o, p) && Up(from, o) == p
    && found == At(r, o, p) && forall a: nat :: a < o ==> !At(r, a, Up(from, a))
  }

  lemma NextOnWay(m: nat, r: Rows, idx: nat, o: nat, p: nat, from: nat)
    requires OnWay(m, r, idx, o, p, from, false) && idx != 0
    ensures o < m && p / 2 < Pow2(m - o - 1) && (idx - 1) / 2 == Index(m, o + 1, p / 2) && idx > 0
    ensures OnWay(m, r, (idx - 1) / 2, o + 1, p / 2, from, At(r, o + 1, p / 2))
  {
    hide Pow2;
    NotRoot(m, o, p);
    SiblingIndex(m, o, p);
    UpNext(from, o);
  }

  lemma WayEnds(m: nat, r: Rows, idx: nat, o: nat, p: nat, from: nat, found: bool)
    requires OnWay(m, r, idx, o, p, from, found) && (idx == 0 || found) && Shaped(r, m)
    ensures found <==> Free(r, from)
  {
    hide Pow2;
    if !found {
      RootOrder(m, o, p);
      assert forall a: nat :: At(r, a, Up(from, a)) ==> a < o;
    }
  }

  lemma LastRowFirst(m: nat)
    ensures
      && RowEnd(m, 0) == Pow2(m) - 1 + Pow2(m) == Pow2(m + 1) - 1 && (RowEnd(m, 0) - 1) / 2 == Index(m, 0, 0)
      && Pow2(m) > 0
  {
  }

  /** No page behind the tree is free. */
  lemma NoneBehind(r: Rows, m: nat)
    requires Shaped(r, m)
    ensures !Free(r, Pow2(m))
  {
    if Free(r, Pow2(m)) {
      FreeInTree(r, m, Pow2(m));
    }
  }

  const PAGE_SIZE := 4096

  ghost predicate IsLeastOrder(s: nat, n: nat) {
    n <= Pow2(s) && (s > 0 ==> Pow2(s - 1) < n)
  }

  /** The bound on the first page, computed in 64-bit arithmetic. */
  function PageBound(maxPaddr: nat, npages: nat): nat {
    (maxPaddr / PAGE_SIZE - npages + 1) % Pow2(BITS)
  }

  /** Aligned block `q` of order `s` is free throughout. */
  ghost predicate FreeBlock(r: Rows, s: nat, q: nat) {
    forall x: nat :: Up(x, s) == q ==> Free(r, x)
  }

  ghost predicate NoFreeBlock(r: Rows, s: nat) {
    forall q: nat :: !FreeBlock(r, s, q)
  }

  ghost predicate NoBlock(r: Rows, s: nat, bound: nat) {
    forall q: nat :: FreeBlock(r, s, q) ==> q * Pow2(s) >= bound
  }

  /** No available node of an order from `s` up to `a` starts below the bound. */
  ghost predicate NoneBelow(r: Rows, s: nat, a: nat, bound: nat) {
    forall o: nat, q: nat :: s <= o < a && At(r, o, q) ==> q * Pow2(o) >= bound
  }

  /** Live allocations lie in the tree, hold no free page and are pairwise disjoint. */
  ghost predicate LiveOk(live: map<nat, nat>, r: Rows, maxPages: nat) {
    && (forall a :: a in live ==> live[a] > 0 && a + live[a] <= maxPages && Held(r, a, live[a]))
    && (forall a, b :: a in live && b in live && a != b ==> a + live[a] <= b || b + live[b] <= a)
  }

  /** The first page, the video page and pages beyond the memory are never free. */
  ghost predicate Allowed(r: Rows, maxPages: nat) {
    !Free(r, 0) && !Free(r, VGA_PAGE) && forall x: nat :: Free(r, x) ==> x < maxPages
  }

  ghost predicate Held(r: Rows, a: nat, n: nat) {
    (forall x: nat :: a <= x < a + n ==> !Free(r, x)) && !(a <= VGA_PAGE < a + n) && (n > 0 ==> a > 0)
  }

  lemma {:induction false} LeastIsUnique(n: nat, s: nat)
    requires IsLeastOrder(s, n)
    ensures forall t: nat :: IsLeastOrder(t, n) ==> t == s
  {
    forall t: nat | IsLeastOrder(t, n) ensures t == s {
      if t < s {
        Pow2Grows(t, s - 1);
      } else if s < t {
        Pow2Grows(s, t - 1);
      }
    }
  }

  lemma LeastFits(s: nat, n: nat)
    requires IsLeastOrder(s, n)
    ensures n <= Pow2(s)
  {
  }

  lemma {:induction false} CountGrows(r: Rows, a: nat, b: nat)
    requires a <= b
    ensures CountFree(r, a) <= CountFree(r, b)
  {
    if a < b {
      CountGrows(r, a, b - 1);
    }
  }

  lemma {:induction false} FreeInTree(r: Rows, m: nat, x: nat)
    requires Shaped(r, m) && Free(r, x)
    ensures x < Pow2(m)
  {
    hide Pow2;
    var o: nat :| At(r, o, Up(x, o));
    UpRange(x, o, Up(x, o));
    NodeInTree(m, o, Up(x, o));
    Distribute(Pow2(o), Up(x, o), 1);
  }

  /** A block never has more pages than there are free ones. */
  lemma TooFewPages(r: Rows, m: nat, s: nat, n: nat, bound: nat)
    requires Tiling(r, m) && IsLeastOrder(s, n) && n > Weight(r, m + 1)
    ensures NoBlock(r, s, bound)
  {
    hide Pow2, Free, Weight, CountFree, Nested, NoTwins;
    forall q: nat | FreeBlock(r, s, q) ensures false {
      var lo := q * Pow2(s);
      forall x: nat | lo <= x < lo + Pow2(s) ensures Free(r, x) && x < Pow2(m) {
        NodePages(x, s, q, lo);
        FreeInTree(r, m, x);
      }
      CountAll(r, lo, Pow2(s));
      FreeInTree(r, m, lo + Pow2(s) - 1);
      CountGrows(r, lo + Pow2(s), Pow2(m));
      WeightIsFreePages(r, m);
    }
  }

  lemma NoneYet(r: Rows, s: nat, bound: nat)
    ensures NoneBelow(r, s, s, bound)
  {
  }

  lemma SummaryAt(m: nat, r: Rows, mins: seq<nat>, counts: seq<nat>, o: nat)
    requires Summaries(m, r, mins, counts) && o <= m
    ensures |mins| == m + 1 && |counts| == m + 1
    ensures counts[o] != 0 ==> RowStart(m, o) <= mins[o] < RowEnd(m, o) && At(r, o, mins[o] - RowStart(m, o))
  {
    CountNone(r[o], |r[o]|);
  }

  lemma RowDone(m: nat, r: Rows, mins: seq<nat>, counts: seq<nat>, s: nat, o: nat, bound: nat)
    requires Summaries(m, r, mins, counts) && s <= o <= m && NoneBelow(r, s, o, bound)
    requires counts[o] != 0 ==> mins[o] >= RowStart(m, o) && (mins[o] - RowStart(m, o)) * Pow2(o) >= bound
    ensures NoneBelow(r, s, o + 1, bound)
  {
    CountNone(r[o], |r[o]|);
    forall q: nat | At(r, o, q) ensures q * Pow2(o) >= bound {
      var f := mins[o] - RowStart(m, o);
      Monotone(f, q, Pow2(o));
    }
  }

  lemma Monotone(a: nat, b: nat, w: nat)
    requires a <= b
    ensures a * w <= b * w
  {
  }

  /** Every free block lies under an available node, which starts no later. */
  lemma NothingFits(r: Rows, m: nat, s: nat, bound: nat)
    requires Tiling(r, m) && NoneBelow(r, s, m + 1, bound)
    ensures NoBlock(r, s, bound)
  {
    forall q: nat | FreeBlock(r, s, q) ensures q * Pow2(s) >= bound {
      var n := BlockIsCovered(r, s, q);
      assert Up(q, n) * Pow2(s + n) >= bound;
      StartsBefore(q, s, n);
    }
  }

  lemma {:induction false} StartsBefore(q: nat, s: nat, n: nat)
    ensures Up(q, n) * Pow2(s + n) <= q * Pow2(s)
    decreases n
  {
    if n > 0 {
      StartsBefore(q / 2, s + 1, n - 1);
      Halves(q / 2, s + 1);
      Monotone(q / 2 * 2, q, Pow2(s));
    }
  }

  /** The first part of an available node is a free block. */
  lemma FoundBlock(r: Rows, s: nat, a: nat, p: nat, bound: nat)
    requires At(r, a, p) && s <= a && p * Pow2(a) < bound
    ensures !NoBlock(r, s, bound)
  {
    hide Pow2, At;
    var q := p * Pow2(a - s);
    StartOfPart(p, a - s, s);
    UpOfMultiple(p, a - s);
    forall x: nat | Up(x, s) == q ensures Free(r, x) {
      UpUp(x, s, a - s);
      assert At(r, a, Up(x, a));
    }
    assert FreeBlock(r, s, q);
  }

  lemma StartOfPart(p: nat, a: nat, b: nat)
    ensures p * Pow2(a) * Pow2(b) == p * Pow2(a + b)
  {
    PowAdds(a, b);
    Associate(p, Pow2(a), Pow2(b));
  }

  lemma Associate(a: nat, b: nat, c: nat)
    ensures a * b * c == a * (b * c)
  {
  }

  lemma {:induction false} PowAdds(a: nat, b: nat)
    ensures Pow2(a) * Pow2(b) == Pow2(a + b)
  {
    if a > 0 {
      PowAdds(a - 1, b);
    }
  }

  lemma UpOfMultiple(p: nat, n: nat)
    ensures Up(p * Pow2(n), n) == p
  {
    UpRange(p * Pow2(n), n, p);
    Distribute(Pow2(n), p, 1);
  }

  /** What was free before and is held now is disjoint from everything that was held. */
  lemma LiveAdded(live: map<nat, nat>, was: Rows, r: Rows, maxPages: nat, page: nat, n: nat)
    requires LiveOk(live, was, maxPages) && n > 0 && page > 0 && page + n <= maxPages && !Free(was, VGA_PAGE)
    requires !Free(was, 0)
    requires forall x: nat :: page <= x < page + n ==> Free(was, x)
    requires forall x: nat :: Free(r, x) <==> Free(was, x) && !(page <= x < page + n)
    ensures page !in live && LiveOk(live[page := n], r, maxPages)
  {
    hide Free;
    forall a | a in live ensures a + live[a] <= page || page + n <= a {
      assert Held(was, a, live[a]);
      var pages := (Free(was, page), Free(was, a));
    }
    assert page !in live by {
      assert Free(was, page);
    }
  }

  lemma RootOrder(m: nat, o: nat, p: nat)
    requires o <= m && p < Pow2(m - o) && Index(m, o, p) == 0
    ensures o == m
  {
  }

  /** The number of whole pages in a range, computed in 64-bit arithmetic. */
  function RangePages(start: nat, end: nat): nat {
    (end / PAGE_SIZE * PAGE_SIZE - (start + PAGE_SIZE - 1) / PAGE_SIZE * PAGE_SIZE) % Pow2(BITS) / PAGE_SIZE
  }

  /** That number is right if and only if the range reaches from one page boundary to another; otherwise it wraps. */
  lemma RangeIsMeant(start: nat, end: nat)
    requires start < end < Pow2(BITS)
    ensures var first, last := (start + PAGE_SIZE - 1) / PAGE_SIZE, end / PAGE_SIZE;
      && RangePages(start, end) == (if first <= last then last - first else Pow2(52) - 1)
      && (RangePages(start, end) == (if first <= last then last - first else 0) <==> first <= last)
  {
    PowValues();
    assert Pow2(52) == 2 * Pow2(51);
  }

  /** A range inside one page counts as all pages there are, less one. */
  lemma RangeWraps()
    ensures RangePages(1, 2) == Pow2(52) - 1
  {
    RangeIsMeant(1, 2);
  }

  /** The first whole page at or after an address, skipping page 0. */
  function RangeFirst(start: nat): nat {
    if start == 0 then 1 else (start + PAGE_SIZE - 1) / PAGE_SIZE
  }

  lemma LiveRemoved(live: map<nat, nat>, r: Rows, maxPages: nat, page: nat)
    requires LiveOk(live, r, maxPages) && page in live
    ensures live[page] > 0 && page + live[page] <= maxPages && Held(r, page, live[page])
    ensures LiveOk(live - {page}, r, maxPages)
    ensures forall a :: a in live && a != page ==> a + live[a] <= page || page + live[page] <= a
  {
  }

  /** Freeing pages that no live allocation holds keeps the live ones. */
  lemma StillLive(live: map<nat, nat>, was: Rows, r: Rows, maxPages: nat, first: nat, n: nat)
    requires LiveOk(live, was, maxPages) && forall x: nat :: Free(r, x) <==> Free(was, x) || first <= x < first + n
    requires forall a :: a in live ==> a + live[a] <= first || first + n <= a
    ensures LiveOk(live, r, maxPages)
  {
    hide Free, Held;
    forall a | a in live ensures Held(r, a, live[a]) {
      StillHeld(was, r, a, live[a], first, n);
    }
  }

  lemma StillHeld(was: Rows, r: Rows, a: nat, k: nat, first: nat, n: nat)
    requires Held(was, a, k) && (a + k <= first || first + n <= a)
    requires forall x: nat :: Free(r, x) ==> Free(was, x) || first <= x < first + n
    ensures Held(r, a, k)
  {
    hide At, Up;
    forall x: nat | a <= x < a + k ensures !Free(r, x) {
      assert !Free(was, x);
    }
  }

  lemma FewerFree(live: map<nat, nat>, was: Rows, r: Rows, maxPages: nat)
    requires LiveOk(live, was, maxPages) && forall x: nat :: Free(r, x) ==> Free(was, x)
    ensures LiveOk(live, r, maxPages)
  {
    hide Free, Held;
    forall a | a in live ensures Held(r, a, live[a]) {
      StillHeld(was, r, a, live[a], a, 0);
    }
  }

  /** With the largest address as bound, no page of the tree is out of bounds. */
  lemma Unbounded(r: Rows, m: nat, n: nat)
    requires Shaped(r, m) && 0 < n <= Pow2(m) && m <= 51
    ensures forall s: nat :: NoBlock(r, s, PageBound(Pow2(BITS) - 1, n)) <==> NoFreeBlock(r, s)
  {
    var bound := PageBound(Pow2(BITS) - 1, n);
    BoundOfAll(m, n);
    forall s: nat, q: nat | FreeBlock(r, s, q) ensures q * Pow2(s) < bound {
      var x := FirstPage(s, q);
      FreeInTree(r, m, x);
    }
  }

  lemma BoundOfAll(m: nat, n: nat)
    requires 0 < n <= Pow2(m) && m <= 51
    ensures PageBound(Pow2(BITS) - 1, n) >= Pow2(m)
  {
    assert Pow2(BITS) == 0x1_0000_0000_0000_0000 && Pow2(51) == 0x8_0000_0000_0000 by {
      PowValues();
    }
    Pow2Grows(m, 51);
  }

  lemma PowValues()
    ensures Pow2(51) == 0x8_0000_0000_0000 && Pow2(64) == 0x1_0000_0000_0000_0000
  {
    hide Pow2;
    Pow16();
    PowAdds(16, 16);
    PowAdds(32, 16);
    PowAdds(32, 32);
    PowAdds(48, 3);
  }

  lemma Pow16()
    ensures Pow2(3) == 8 && Pow2(16) == 0x1_0000
  {
    assert Pow2(4) == 16;
    PowAdds(4, 4);
    PowAdds(8, 8);
  }

  lemma BoundIs(maxPaddr: nat, n: nat)
    requires maxPaddr < Pow2(BITS) && 0 < n
    ensures n <= maxPaddr / PAGE_SIZE + 1 ==> PageBound(maxPaddr, n) == maxPaddr / PAGE_SIZE + 1 - n
  {
    PowValues();
  }

  /**
   * The bound admits exactly the starts from which the pages end at or before the page of `maxPaddr`,
   * if and only if it does not wrap.
   */
  lemma BoundIsMeant(maxPaddr: nat, n: nat)
    requires maxPaddr < Pow2(BITS) && 0 < n <= Pow2(51)
    ensures (forall page: nat :: page < PageBound(maxPaddr, n) <==> EndsBy(page, n, maxPaddr))
      <==> n <= maxPaddr / PAGE_SIZE + 1
  {
    PowValues();
    assert EndsBy(0, n, maxPaddr) <==> n <= maxPaddr / PAGE_SIZE;
    assert n > maxPaddr / PAGE_SIZE + 1 ==> 0 < PageBound(maxPaddr, n);
    assert n <= maxPaddr / PAGE_SIZE + 1 ==> PageBound(maxPaddr, n) == maxPaddr / PAGE_SIZE + 1 - n;
  }

  /** Two pages below the end of the first one: the bound wraps and admits every start. */
  lemma BoundWraps()
    ensures PageBound(0xfff, 2) == Pow2(BITS) - 1 && !EndsBy(0, 2, 0xfff)
  {
    PowValues();
  }

  /** The `n` pages from `page` on lie below the page of `maxPaddr`. */
  predicate EndsBy(page: nat, n: nat, maxPaddr: nat) {
    page + n <= maxPaddr / PAGE_SIZE
  }

  function EmptyRows(m: nat): Rows {
    seq(m + 1, o requires 0 <= o <= m => seq(Pow2(m - o), _ => false))
  }

  lemma EnoughWords(m: nat)
    ensures Pow2(m + 1) <= BITS * (Pow2(m + 1) / BITS + 1)
  {
  }

  lemma EmptyMatches(m: nat, words: seq<nat>)
    requires Pow2(m + 1) <= BITS * |words| && forall i :: 0 <= i < |words| ==> words[i] == 0
    ensures BitsMatch(m, words, EmptyRows(m)) && Tiling(EmptyRows(m), m) && forall x: nat :: !Free(EmptyRows(m), x)
  {
    hide Pow2;
    var r := EmptyRows(m);
    forall o: nat, p: nat ensures !At(r, o, p) {
      if o <= m {
        assert r[o] == seq(Pow2(m - o), _ => false);
      }
    }
    forall idx: nat ensures !BitAt(words, idx) {
      if idx / BITS < |words| {
        ZeroWord(words, idx / BITS);
      }
    }
  }

  lemma EmptySummaries(m: nat, mins: seq<nat>, counts: seq<nat>)
    requires |mins| == m + 1 && |counts| == m + 1
    requires forall o :: 0 <= o <= m ==> mins[o] == RowEnd(m, o) && counts[o] == 0
    ensures Summaries(m, EmptyRows(m), mins, counts)
  {
    hide Pow2;
    var r := EmptyRows(m);
    forall o: nat | o <= m ensures counts[o] == Count(r[o], |r[o]|) && IsFirst(r[o], mins[o] - RowStart(m, o)) {
      CountNone(r[o], |r[o]|);
    }
  }

  lemma {:induction false} EmptyWeight(m: nat, n: nat)
    requires n <= m + 1
    ensures Weight(EmptyRows(m), n) == 0
  {
    hide Pow2;
    if n > 0 {
      EmptyWeight(m, n - 1);
      var r := EmptyRows(m);
      var row := r[n - 1];
      assert Weight(r, n) == Weight(r, n - 1) + Pow2(n - 1) * Count(row, |row|);
      assert row == seq(Pow2(m - (n - 1)), _ => false);
      CountNone(row, |row|);
      Distribute(Pow2(n - 1), 0, 0);
    }
  }

  /** The free counter is the number of free pages. */
  lemma CounterIsExact(a: Allocator)
    requires a.Valid()
    ensures a.freeCount == CountFree(a.rows, Pow2(a.m))
  {
    WeightIsFreePages(a.rows, a.m);
  }

  lemma PowZero()
    ensures Pow2(0) == 1
  {
  }

  lemma NoneTwin(r: Rows, o: nat, p: nat)
    requires NoTwins(r)
    ensures NoTwinsBut(r, o, p)
  {
  }

  lemma NodeWeight(r: Rows, m: nat, o: nat, p: nat)
    requires Shaped(r, m) && At(r, o, p)
    ensures Weight(Put(r, o, p, false), m + 1) == Weight(r, m + 1) - Pow2(o)
  {
    WeightPut(r, m + 1, o, p, false);
    Distribute(Pow2(o), 0, 0);
  }

  /** A node ends inside the tree. */
  lemma {:induction false} NodeInTree(m: nat, o: nat, p: nat)
    requires o <= m && p < Pow2(m - o)
    ensures p * Pow2(o) + Pow2(o) <= Pow2(m)
    decreases o
  {
    hide Pow2;
    PowZero();
    if o > 0 {
      ChildIndex(m, o, p);
      NodeInTree(m, o - 1, 2 * p + 1);
      Halves(p, o);
      Distribute(Pow2(o - 1), 2 * p + 1, 1);
      Distribute(Pow2(o), p, 1);
    }
  }

  lemma TakenPages(r: Rows, o: nat, p: nat)
    requires At(r, o, p)
    ensures forall x: nat :: p * Pow2(o) <= x < p * Pow2(o) + Pow2(o) <==> Up(x, o) == p
    ensures forall x: nat :: Up(x, o) == p ==> Free(r, x)
  {
    forall x: nat ensures p * Pow2(o) <= x < p * Pow2(o) + Pow2(o) <==> Up(x, o) == p {
      NodePages(x, o, p, p * Pow2(o));
    }
  }

  lemma AddedPair(m: nat, r: Rows, mins: seq<nat>, counts: seq<nat>, o: nat, p: nat)
    requires Summaries(m, r, mins, counts) && o <= m && p + 1 < Pow2(m - o) && !At(r, o, p) && !At(r, o, p + 1)
    ensures var idx := Index(m, o, p);
      Summaries(m, Put(Put(r, o, p, true), o, p + 1, true), mins[o := if idx < mins[o] then idx else mins[o]],
                counts[o := counts[o] + 2])
  {
    hide Pow2, Count, Summaries, IsFirst;
    var idx := Index(m, o, p);
    assert |mins| == m + 1 && |counts| == m + 1 && Shaped(r, m) by {
      Sizes(m, r, mins, counts);
    }
    Added(m, r, mins, counts, o, p);
    PutShaped(r, m, o, p, true);
    var mins', counts' := mins[o := if idx < mins[o] then idx else mins[o]], counts[o := counts[o] + 1];
    Added(m, Put(r, o, p, true), mins', counts', o, p + 1);
    assert mins'[o := mins'[o]] == mins' && counts'[o := counts[o] + 2] == counts[o := counts[o] + 2];
  }

  lemma Sizes(m: nat, r: Rows, mins: seq<nat>, counts: seq<nat>)
    requires Summaries(m, r, mins, counts)
    ensures |mins| == m + 1 && |counts| == m + 1 && Shaped(r, m)
  {
  }

  /** The page of the legacy video memory window, which must never become available. */
  const VGA_PAGE := 0xb1

  lemma ShapeOf(m: nat, words: seq<nat>, r: Rows)
    requires BitsMatch(m, words, r)
    ensures Shaped(r, m)
  {
  }

  lemma TwoPow(n: nat)
    requires n > 0
    ensures Pow2(n) == 2 * Pow2(n - 1)
  {
  }

  lemma NodePages(x: nat, o: nat, p: nat, l: nat)
    requires p * Pow2(o) == l
    ensures Up(x, o) == p <==> l <= x < l + Pow2(o)
  {
    UpRange(x, o, p);
    Distribute(Pow2(o), p, 1);
  }

  lemma OnlyRoot(m: nat, r: Rows, o: nat, p: nat)
    requires Shaped(r, m) && o <= m && p < Pow2(m - o) && Index(m, o, p) == 0
    ensures !At(r, o, Sibling(p))
  {
  }

  lemma NotRoot(m: nat, o: nat, p: nat)
    requires o <= m && p < Pow2(m - o) && Index(m, o, p) != 0
    ensures o < m
  {
    assert Pow2(0) == 1;
  }

  lemma LeftTwin(r: Rows, o: nat, p: nat)
    requires NoTwinsBut(r, o, p) && At(r, o, p) && At(r, o, Sibling(p))
    ensures var left := p / 2 * 2;
      NoTwinsBut(r, o, left) && At(r, o, left) && At(r, o, left + 1) && Sibling(left) == left + 1 && left / 2 == p / 2
  {
    SiblingFacts(p);
  }

  lemma LoneNode(r: Rows, o: nat, p: nat)
    requires NoTwinsBut(r, o, p) && !At(r, o, Sibling(p))
    ensures NoTwins(r)
  {
    SiblingFacts(p);
  }

  lemma Added(m: nat, r: Rows, mins: seq<nat>, counts: seq<nat>, o: nat, p: nat)
    requires Summaries(m, r, mins, counts) && o <= m && p < Pow2(m - o) && !At(r, o, p)
    ensures var idx := Index(m, o, p);
      Summaries(m, Put(r, o, p, true), mins[o := if idx < mins[o] then idx else mins[o]], counts[o := counts[o] + 1])
  {
    hide Pow2, Count;
    PutShaped(r, m, o, p, true);
    CountPut(r[o], |r[o]|, p, true);
  }

  /** The shifting loop on the masked word, which also stops at the bit of the removed node. */
  method LeadingBitAfter(w: nat, stop: nat) returns (bitIdx: nat)
    requires stop < BITS && Length(w) <= BITS - stop
    ensures bitIdx == BITS - Length(w)
  {
    var copy := w;
    bitIdx := BITS;
    while copy != 0 && bitIdx > stop
      invariant bitIdx - Length(copy) == BITS - Length(w)
    {
      bitIdx := bitIdx - 1;
      copy := copy / 2;
    }
  }

  /** A scan that starts at the word of `p` finds nothing before `p`. */
  lemma NotBefore(m: nat, words: seq<nat>, r: Rows, o: nat, p: nat, i: nat)
    requires BitsMatch(m, words, r) && o <= m && p < Pow2(m - o)
    requires forall j :: 0 <= j <= p ==> !r[o][j]
    requires var k := Index(m, o, p) / BITS;
      k < |words| && k * BITS <= i && BitAt(words, i) && (words[k] == 0 || k != RowStart(m, o) / BITS)
    ensures i >= Index(m, o, p)
  {
    var k := Index(m, o, p) / BITS;
    if words[k] == 0 {
      ZeroWord(words, k);
    } else if i < Index(m, o, p) {
      assert RowStart(m, o) <= k * BITS;
      ClearBits(m, words, r, o, p, i);
    }
  }
}
