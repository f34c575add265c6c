/**
 * Four-level page tables.  A table is a page of 512 entries; a virtual page is named by
 * its four table indices, from the top table down.  Frames are page numbers.
 */
module PageTables {
  const ENTRIES := 512
  const ENOMEM := 12

  type Frame = nat

  datatype Flag = Present | Write | User | WriteThrough | CacheDisabled | Accessed | Dirty | Size | Global

  datatype Entry = Entry(frame: Frame, flags: set<Flag>)

  const ZERO := Entry(0, {})

  type Table = seq<Entry>
  type Memory = map<Frame, Table>

  datatype Option<T> = None | Some(value: T)

  /** What a virtual page maps to: a frame and the flags of the entry that maps it. */
  datatype Leaf = Leaf(frame: Frame, flags: set<Flag>)

  predicate IsPage(path: seq<nat>) {
    |path| == 4 && forall i :: 0 <= i < 4 ==> path[i] < ENTRIES
  }

  /** Pages mapped by one entry of a table at depth `d` (0 is the top table). */
  function Span(d: nat): nat {
    if d >= 3 then 1 else if d == 2 then ENTRIES else if d == 1 then ENTRIES * ENTRIES else ENTRIES * ENTRIES * ENTRIES
  }

  /** The place of a page inside what one entry at depth `d` maps. */
  function Offset(path: seq<nat>, d: nat): nat
    requires |path| == 4
  {
    if d >= 3 then 0 else if d == 2 then path[3] else if d == 1 then path[2] * ENTRIES + path[3]
    else path[1] * ENTRIES * ENTRIES + path[2] * ENTRIES + path[3]
  }

  function AlignDown(frame: Frame, span: nat): Frame
    requires span > 0
  {
    frame - frame % span
  }

  predicate IsHuge(e: Entry, d: nat) {
    Size in e.flags && (d == 1 || d == 2)
  }

  /** `pt_virt_to_phys_helper`, from a table at depth `d` on. */
  function Translate(mem: Memory, t: Frame, d: nat, path: seq<nat>): Option<Leaf>
    requires IsPage(path) && d <= 3
    decreases 3 - d
  {
    if t !in mem || |mem[t]| != ENTRIES then None
    else
      var e := mem[t][path[d]];
      if Present !in e.flags then None
      else if d == 3 then Some(Leaf(e.frame, e.flags))
      else if IsHuge(e, d) then Some(Leaf(AlignDown(e.frame, Span(d)) + Offset(path, d), e.flags - {Size}))
      else Translate(mem, e.frame, d + 1, path)
  }

  // ------------------------------------------------------------------ unshared trees

  /** The tables of a tree, each with the indices that lead to it. */
  type Places = map<Frame, seq<nat>>

  predicate IsLink(e: Entry, d: nat) {
    d < 3 && e != ZERO && Size !in e.flags
  }

  predicate EntryOk(e: Entry, place: seq<nat>, i: nat, tree: Places) {
    |place| == 3 || e == ZERO ||
    (Present in e.flags &&
     if Size in e.flags then (|place| == 1 || |place| == 2) && e.frame % Span(|place|) == 0
     else e.frame != 0 && e.frame in tree && tree[e.frame] == place + [i])
  }

  predicate TableOk(table: Table, place: seq<nat>, tree: Places) {
    |table| == ENTRIES && |place| <= 3 && forall i :: 0 <= i < ENTRIES ==> EntryOk(table[i], place, i, tree)
  }

  /** Table `c` is linked from its place in the tree. */
  ghost predicate Linked(mem: Memory, tree: Places, c: Frame)
    requires c in tree
  {
    var place := tree[c];
    place != [] &&
    exists t ::
      t in tree && t in mem && tree[t] == place[..|place| - 1] && |mem[t]| == ENTRIES && place[|place| - 1] < ENTRIES
      && IsLink(mem[t][place[|place| - 1]], |place| - 1) && mem[t][place[|place| - 1]].frame == c
  }

  /** The tables of `tree` form an unshared tree below `root`, which sits at `base`. */
  ghost predicate IsTree(mem: Memory, root: Frame, base: seq<nat>, tree: Places) {
    && root in tree && tree[root] == base && 0 !in tree
    && (forall t :: t in tree ==> t in mem && TableOk(mem[t], tree[t], tree) && base <= tree[t])
    && (forall t, u :: t in tree && u in tree && tree[t] == tree[u] ==> t == u)
    && (forall c :: c in tree && c != root ==> Linked(mem, tree, c))
  }

  /** All pages translate as before. */
  ghost predicate SameTranslation(mem: Memory, mem': Memory, t: Frame, d: nat)
    requires d <= 3
  {
    forall path :: IsPage(path) ==> Translate(mem', t, d, path) == Translate(mem, t, d, path)
  }

  /** Where a walk goes next. */
  lemma NextTable(mem: Memory, root: Frame, base: seq<nat>, tree: Places, t: Frame, path: seq<nat>)
    requires IsTree(mem, root, base, tree) && t in tree && IsPage(path) && tree[t] <= path
    ensures |tree[t]| <= 3 && t in mem && |mem[t]| == ENTRIES
    ensures var d := |tree[t]|; var e := mem[t][path[d]];
      d < 3 && Present in e.flags && !IsHuge(e, d) ==>
        e.frame in tree && e.frame in mem && tree[e.frame] == path[..d + 1]
  {
    hide Linked;
    var d := |tree[t]|;
    assert TableOk(mem[t], tree[t], tree) && EntryOk(mem[t][path[d]], tree[t], path[d], tree);
    assert path[..d + 1] == path[..d] + [path[d]];
  }

  /** The entries that a walk along `path` can read are the same. */
  ghost predicate SameOnPath(mem: Memory, mem': Memory, tree: Places, path: seq<nat>)
    requires IsPage(path)
  {
    forall u :: u in tree && |tree[u]| <= 3 && tree[u] <= path && u in mem && |mem[u]| == ENTRIES ==>
      u in mem' && |mem'[u]| == ENTRIES && mem'[u][path[|tree[u]|]] == mem[u][path[|tree[u]|]]
  }

  /** A change that a walk cannot see does not change where it ends. */
  lemma {:induction false} WalkFrame(mem: Memory, mem': Memory, root: Frame, base: seq<nat>, tree: Places, t: Frame,
                                     path: seq<nat>)
    requires IsTree(mem, root, base, tree) && t in tree && IsPage(path) && tree[t] <= path
    requires SameOnPath(mem, mem', tree, path)
    ensures |tree[t]| <= 3 && Translate(mem', t, |tree[t]|, path) == Translate(mem, t, |tree[t]|, path)
    decreases 4 - |tree[t]|
  {
    hide IsTree;
    NextTable(mem, root, base, tree, t, path);
    var d := |tree[t]|;
    var e := mem[t][path[d]];
    if d < 3 && Present in e.flags && !IsHuge(e, d) {
      WalkFrame(mem, mem', root, base, tree, e.frame, path);
    }
  }

  /** A walk from the root comes through every table that sits on the path. */
  lemma {:induction false} Reaches(mem: Memory, root: Frame, base: seq<nat>, tree: Places, t: Frame, path: seq<nat>)
    requires IsTree(mem, root, base, tree) && t in tree && IsPage(path) && tree[t] <= path
    ensures base <= tree[t] && |tree[t]| <= 3
    ensures Translate(mem, root, |base|, path) == Translate(mem, t, |tree[t]|, path)
    decreases |tree[t]|
  {
    if t != root {
      var place := tree[t];
      var n := |place| - 1;
      var u := Parent(mem, root, base, tree, t);
      assert tree[u] <= path;
      Reaches(mem, root, base, tree, u, path);
      assert place[n] == path[n];
    }
  }

  /** The table above a table that is not the root. */
  lemma Parent(mem: Memory, root: Frame, base: seq<nat>, tree: Places, c: Frame) returns (t: Frame)
    requires IsTree(mem, root, base, tree) && c in tree && c != root
    ensures tree[c] != [] && t in tree && t in mem && |mem[t]| == ENTRIES && |tree[c]| <= 3
    ensures var n := |tree[c]| - 1; var k := tree[c][n];
      && tree[t] == tree[c][..n] && k < ENTRIES && IsLink(mem[t][k], n) && mem[t][k].frame == c
      && Present in mem[t][k].flags
      && base <= tree[t]
  {
    assert Linked(mem, tree, c);
    var n := |tree[c]| - 1;
    var k := tree[c][n];
    t :| t in tree && t in mem && tree[t] == tree[c][..n] && |mem[t]| == ENTRIES && k < ENTRIES
      && IsLink(mem[t][k], n) && mem[t][k].frame == c;
    assert TableOk(mem[t], tree[t], tree) && EntryOk(mem[t][k], tree[t], k, tree);
  }

  /** Nothing but entry `i` of table `t` differs between the tables of a tree. */
  ghost predicate OnlyEntry(mem: Memory, mem': Memory, tree: Places, t: Frame, i: nat) {
    forall u :: u in tree && u in mem && |mem[u]| == ENTRIES ==>
      && u in mem' && |mem'[u]| == ENTRIES
      && forall k :: 0 <= k < ENTRIES && !(u == t && k == i) ==> mem'[u][k] == mem[u][k]
  }

  lemma NotThrough(mem: Memory, mem': Memory, root: Frame, base: seq<nat>, tree: Places, t: Frame, i: nat,
                   path: seq<nat>)
    requires IsTree(mem, root, base, tree) && t in tree && OnlyEntry(mem, mem', tree, t, i)
    requires IsPage(path) && base <= path && !(tree[t] + [i] <= path) && |tree[t]| <= 3
    ensures |base| <= 3 && Translate(mem', root, |base|, path) == Translate(mem, root, |base|, path)
  {
    hide Linked, TableOk;
    forall u | u in tree && |tree[u]| <= 3 && tree[u] <= path && u in mem && |mem[u]| == ENTRIES
      ensures u in mem' && |mem'[u]| == ENTRIES && mem'[u][path[|tree[u]|]] == mem[u][path[|tree[u]|]]
    {
      if u == t {
        assert path[..|tree[t]| + 1] == tree[t] + [path[|tree[t]|]];
      }
    }
    WalkFrame(mem, mem', root, base, tree, root, path);
  }

  /** A change of one entry that leads every walk through it to the same leaf. */
  lemma SameThrough(mem: Memory, mem': Memory, root: Frame, tree: Places, tree': Places, t: Frame, i: nat)
    requires IsTree(mem, root, [], tree) && IsTree(mem', root, [], tree') && t in tree && t in tree'
    requires tree'[t] == tree[t]
    requires |tree[t]| <= 3 && OnlyEntry(mem, mem', tree, t, i)
    requires forall path ::
      IsPage(path) && tree[t] + [i] <= path ==>
        Translate(mem', t, |tree[t]|, path) == Translate(mem, t, |tree[t]|, path)
    ensures SameTranslation(mem, mem', root, 0)
  {
    hide IsTree, OnlyEntry;
    forall path | IsPage(path) ensures Translate(mem', root, 0, path) == Translate(mem, root, 0, path) {
      if tree[t] + [i] <= path {
        assert tree[t] <= path;
        Reaches(mem, root, [], tree, t, path);
        Reaches(mem', root, [], tree', t, path);
      } else {
        NotThrough(mem, mem', root, [], tree, t, i, path);
      }
    }
  }

  // ------------------------------------------------------------- changing one entry

  function WithEntry(mem: Memory, t: Frame, i: nat, e: Entry): Memory
    requires t in mem && i < |mem[t]|
  {
    mem[t := mem[t][i := e]]
  }

  /** No table sits behind an entry that is not a link. */
  lemma NothingBehind(mem: Memory, root: Frame, base: seq<nat>, tree: Places, t: Frame, i: nat)
    requires IsTree(mem, root, base, tree) && t in tree && i < ENTRIES && |mem[t]| == ENTRIES
    requires !IsLink(mem[t][i], |tree[t]|)
    ensures forall c :: c in tree ==> tree[c] != tree[t] + [i]
  {
    hide TableOk;
    forall c | c in tree ensures tree[c] != tree[t] + [i] {
      if c != root {
        var u := Parent(mem, root, base, tree, c);
      }
    }
  }

  /** A table without links, to be put behind entry `i` of a table at `place`. */
  predicate PlainTable(table: Table, place: seq<nat>) {
    |table| == ENTRIES && |place| <= 3 && forall i :: 0 <= i < ENTRIES ==>
      |place| == 3 || table[i] == ZERO
      || (Present in table[i].flags && Size in table[i].flags && (|place| == 1 || |place| == 2)
           && table[i].frame % Span(|place|) == 0)
  }

  /** A new table is hung into the tree where no table was. */
  lemma LinkTable(mem: Memory, root: Frame, base: seq<nat>, tree: Places, t: Frame, i: nat, c: Frame, table: Table,
                  flags: set<Flag>)
    requires IsTree(mem, root, base, tree) && t in tree && i < ENTRIES && |mem[t]| == ENTRIES && |tree[t]| < 3
    requires !IsLink(mem[t][i], |tree[t]|) && c !in mem && c != 0 && PlainTable(table, tree[t] + [i])
    requires Present in flags && Size !in flags
    ensures var mem', tree' := WithEntry(mem, t, i, Entry(c, flags))[c := table], tree[c := tree[t] + [i]];
      IsTree(mem', root, base, tree')
  {
    hide TableOk, Linked, PlainTable;
    NothingBehind(mem, root, base, tree, t, i);
    LinkedTables(mem, root, base, tree, t, i, c, table, flags);
    LinkedLinks(mem, root, base, tree, t, i, c, table, flags);
  }

  lemma LinkedTables(mem: Memory, root: Frame, base: seq<nat>, tree: Places, t: Frame, i: nat, c: Frame, table: Table,
                     flags: set<Flag>)
    requires IsTree(mem, root, base, tree) && t in tree && i < ENTRIES && |mem[t]| == ENTRIES && |tree[t]| < 3
    requires c !in mem && c != 0 && PlainTable(table, tree[t] + [i]) && Present in flags && Size !in flags
    ensures var mem', tree' := WithEntry(mem, t, i, Entry(c, flags))[c := table], tree[c := tree[t] + [i]];
      forall u :: u in tree' ==> u in mem' && TableOk(mem'[u], tree'[u], tree') && base <= tree'[u]
  {
    hide Linked;
    var mem', tree' := WithEntry(mem, t, i, Entry(c, flags))[c := table], tree[c := tree[t] + [i]];
    forall u | u in tree' ensures u in mem' && TableOk(mem'[u], tree'[u], tree') && base <= tree'[u] {
      if u != c {
        TableGrows(mem[u], mem'[u], tree[u], tree, tree', c, u == t, i, flags);
      }
    }
  }

  lemma LinkedLinks(mem: Memory, root: Frame, base: seq<nat>, tree: Places, t: Frame, i: nat, c: Frame, table: Table,
                    flags: set<Flag>)
    requires IsTree(mem, root, base, tree) && t in tree && i < ENTRIES && |mem[t]| == ENTRIES && |tree[t]| < 3
    requires !IsLink(mem[t][i], |tree[t]|) && c !in mem && c != 0 && Size !in flags
    ensures var mem', tree' := WithEntry(mem, t, i, Entry(c, flags))[c := table], tree[c := tree[t] + [i]];
      forall u :: u in tree' && u != root ==> Linked(mem', tree', u)
  {
    hide TableOk, OnlyEntry, Linked;
    var mem', tree' := WithEntry(mem, t, i, Entry(c, flags))[c := table], tree[c := tree[t] + [i]];
    OnlyOne(mem, tree, t, i, Entry(c, flags), c, table);
    forall u | u in tree' && u != root ensures Linked(mem', tree', u) {
      if u == c {
        NewLink(mem', tree', t, i, c);
      } else {
        StillLinked(mem, mem', root, base, tree, tree', t, i, u);
      }
    }
  }

  lemma OnlyOne(mem: Memory, tree: Places, t: Frame, i: nat, e: Entry, c: Frame, table: Table)
    requires t in mem && |mem[t]| == ENTRIES && i < ENTRIES && c !in mem
    ensures
      && OnlyEntry(mem, WithEntry(mem, t, i, e), tree, t, i)
      && OnlyEntry(mem, WithEntry(mem, t, i, e)[c := table], tree, t, i)
  {
  }

  lemma NewLink(mem: Memory, tree: Places, t: Frame, i: nat, c: Frame)
    requires t in tree && t in mem && |mem[t]| == ENTRIES && i < ENTRIES && c in tree && tree[c] == tree[t] + [i]
    requires IsLink(mem[t][i], |tree[t]|) && mem[t][i].frame == c
    ensures Linked(mem, tree, c)
  {
    assert tree[c][..|tree[c]| - 1] == tree[t];
  }

  lemma TableGrows(table: Table, table': Table, place: seq<nat>, tree: Places, tree': Places, c: Frame, changed: bool,
                   i: nat, flags: set<Flag>)
    requires TableOk(table, place, tree) && i < ENTRIES
    requires table' == if changed then table[i := Entry(c, flags)] else table
    requires c !in tree && c != 0 && c in tree' && (forall u :: u in tree ==> u in tree' && tree'[u] == tree[u])
    requires changed ==> tree'[c] == place + [i] && Present in flags && Size !in flags
    ensures TableOk(table', place, tree')
  {
    forall k | 0 <= k < ENTRIES ensures EntryOk(table'[k], place, k, tree') {
      assert EntryOk(table[k], place, k, tree);
    }
  }

  lemma StillLinked(mem: Memory, mem': Memory, root: Frame, base: seq<nat>, tree: Places, tree': Places, t: Frame,
                    i: nat, u: Frame)
    requires IsTree(mem, root, base, tree) && u in tree && u != root && t in tree && i < ENTRIES && |mem[t]| == ENTRIES
    requires !IsLink(mem[t][i], |tree[t]|) && OnlyEntry(mem, mem', tree, t, i)
    requires forall v :: v in tree ==> v in tree' && tree'[v] == tree[v]
    ensures Linked(mem', tree', u)
  {
    hide TableOk;
    var v := Parent(mem, root, base, tree, u);
    var n := |tree[u]| - 1;
    assert !(v == t && tree[u][n] == i);
    assert mem'[v][tree[u][n]] == mem[v][tree[u][n]];
  }

  /** Flags are added to a link, or an entry of a last-level table is written: the tree is the same. */
  lemma EntryWritten(mem: Memory, root: Frame, base: seq<nat>, tree: Places, t: Frame, i: nat, e: Entry)
    requires IsTree(mem, root, base, tree) && t in tree && i < ENTRIES && |mem[t]| == ENTRIES
    requires |tree[t]| == 3
      || (IsLink(mem[t][i], |tree[t]|) && e.frame == mem[t][i].frame && Present in e.flags && Size !in e.flags)
    ensures IsTree(WithEntry(mem, t, i, e), root, base, tree)
  {
    hide Linked;
    var mem' := WithEntry(mem, t, i, e);
    forall u | u in tree ensures TableOk(mem'[u], tree[u], tree) {
      SameTable(mem[u], mem'[u], tree[u], tree, u == t, i, e);
    }
    forall u | u in tree && u != root ensures Linked(mem', tree, u) {
      LinkKept(mem, root, base, tree, t, i, e, u);
    }
  }

  lemma SameTable(table: Table, table': Table, place: seq<nat>, tree: Places, changed: bool, i: nat, e: Entry)
    requires TableOk(table, place, tree) && i < ENTRIES && table' == if changed then table[i := e] else table
    requires changed ==>
      |place| == 3 || (IsLink(table[i], |place|) && e.frame == table[i].frame && Present in e.flags && Size !in e.flags)
    ensures TableOk(table', place, tree)
  {
    assert EntryOk(table[i], place, i, tree);
    forall k | 0 <= k < ENTRIES ensures EntryOk(table'[k], place, k, tree) {
      assert EntryOk(table[k], place, k, tree);
    }
  }

  lemma LinkKept(mem: Memory, root: Frame, base: seq<nat>, tree: Places, t: Frame, i: nat, e: Entry, u: Frame)
    requires IsTree(mem, root, base, tree) && t in tree && i < ENTRIES && |mem[t]| == ENTRIES && u in tree && u != root
    requires |tree[t]| == 3 || (e.frame == mem[t][i].frame && Present in e.flags && Size !in e.flags)
    ensures Linked(WithEntry(mem, t, i, e), tree, u)
  {
    hide TableOk;
    var mem' := WithEntry(mem, t, i, e);
    var v := Parent(mem, root, base, tree, u);
    var n := |tree[u]| - 1;
    assert IsLink(mem'[v][tree[u][n]], n) && mem'[v][tree[u][n]].frame == u;
  }

  // ----------------------------------------------------------------- mapping a page

  /** The entries that map what huge entry `e` of depth `d` mapped. */
  function SplitTable(e: Entry, d: nat): Table
    requires d == 1 || d == 2
  {
    seq(ENTRIES,
        k requires 0 <= k < ENTRIES => Entry(e.frame + k * Span(d + 1), if d == 1 then e.flags else e.flags - {Size}))
  }

  lemma SplitIsPlain(e: Entry, place: seq<nat>, i: nat)
    requires (|place| == 1 || |place| == 2) && Present in e.flags && Size in e.flags && e.frame % Span(|place|) == 0
    ensures PlainTable(SplitTable(e, |place|), place + [i])
  {
    if |place| == 1 {
      var q := e.frame / (ENTRIES * ENTRIES);
      assert e.frame == q * ENTRIES * ENTRIES;
      forall k: nat | k < ENTRIES ensures (e.frame + k * ENTRIES) % ENTRIES == 0 {
        assert e.frame + k * ENTRIES == (q * ENTRIES + k) * ENTRIES;
        MultipleOf(q * ENTRIES + k);
      }
    }
  }

  lemma MultipleOf(n: nat)
    ensures n * ENTRIES % ENTRIES == 0
  {
  }

  /** Every page behind a split entry translates as it did through the huge entry. */
  lemma SplitBehind(mem: Memory, mem': Memory, t: Frame, d: nat, c: Frame, flags: set<Flag>, path: seq<nat>)
    requires IsPage(path) && (d == 1 || d == 2) && t in mem && |mem[t]| == ENTRIES
    requires var e := mem[t][path[d]];
      && Present in e.flags && Size in e.flags && e.frame % Span(d) == 0
      && t in mem' && |mem'[t]| == ENTRIES && mem'[t][path[d]] == Entry(c, flags) && Present in flags && Size !in flags
      && c in mem' && mem'[c] == SplitTable(e, d)
    ensures Translate(mem', t, d, path) == Translate(mem, t, d, path)
  {
    var e := mem[t][path[d]];
    var f := mem'[c][path[d + 1]];
    assert f == Entry(e.frame + path[d + 1] * Span(d + 1), if d == 1 then e.flags else e.flags - {Size});
    assert Translate(mem', t, d, path) == Translate(mem', c, d + 1, path);
    if d == 1 {
      assert f.frame % ENTRIES == 0 by {
        SplitIsPlain(e, [0], 0);
      }
    }
  }

  lemma ZeroBehind(mem: Memory, mem': Memory, t: Frame, d: nat, c: Frame, flags: set<Flag>, path: seq<nat>)
    requires IsPage(path) && d < 3 && t in mem && |mem[t]| == ENTRIES && mem[t][path[d]] == ZERO
    requires t in mem' && |mem'[t]| == ENTRIES && mem'[t][path[d]] == Entry(c, flags) && Size !in flags
    requires c in mem' && mem'[c] == seq(ENTRIES, _ => ZERO)
    ensures Translate(mem', t, d, path) == Translate(mem, t, d, path)
  {
  }

  lemma FlagsBehind(mem: Memory, mem': Memory, root: Frame, tree: Places, t: Frame, path: seq<nat>, flags: set<Flag>)
    requires
      && IsTree(mem, root, [], tree) && IsTree(mem', root, [], tree) && t in tree && IsPage(path) && tree[t] <= path
      && |tree[t]| < 3
    requires |mem[t]| == ENTRIES && IsLink(mem[t][path[|tree[t]|]], |tree[t]|)
    requires mem' == WithEntry(mem, t, path[|tree[t]|],
                        mem[t][path[|tree[t]|]].(flags := mem[t][path[|tree[t]|]].flags + flags))
    requires Present in flags && Size !in flags
    ensures Translate(mem', t, |tree[t]|, path) == Translate(mem, t, |tree[t]|, path)
  {
    hide Linked;
    var d := |tree[t]|;
    var e := mem[t][path[d]];
    assert TableOk(mem[t], tree[t], tree) && EntryOk(e, tree[t], path[d], tree);
    NextTable(mem, root, [], tree, t, path);
    WalkBelow(mem, mem', root, tree, t, e.frame, path);
  }

  /** The tables further down are not touched by a change of table `t`. */
  lemma {:induction false} WalkBelow(mem: Memory, mem': Memory, root: Frame, tree: Places, t: Frame, u: Frame,
                                     path: seq<nat>)
    requires IsTree(mem, root, [], tree) && t in tree && u in tree && IsPage(path) && tree[u] <= path
    requires |tree[u]| > |tree[t]|
    requires forall v :: v in tree && v != t ==> v in mem && v in mem' && mem'[v] == mem[v]
    ensures |tree[u]| <= 3 && Translate(mem', u, |tree[u]|, path) == Translate(mem, u, |tree[u]|, path)
    decreases 4 - |tree[u]|
  {
    hide IsTree;
    NextTable(mem, root, [], tree, u, path);
    var d := |tree[u]|;
    var e := mem[u][path[d]];
    if d < 3 && Present in e.flags && !IsHuge(e, d) {
      WalkBelow(mem, mem', root, tree, t, e.frame, path);
    }
  }

  predicate Extends(tree: Places, tree': Places) {
    forall t :: t in tree ==> t in tree' && tree'[t] == tree[t]
  }

  lemma {:induction false} FreshFrame(used: set<Frame>) returns (c: Frame)
    ensures c != 0 && forall u :: u in used ==> u < c
  {
    if used == {} {
      c := 1;
    } else {
      var u :| u in used;
      c := FreshFrame(used - {u});
      assert forall v :: v in used ==> v == u || v in used - {u};
      c := if c <= u then u + 1 else c;
    }
  }

  class PageMap {
    var mem: Memory
    var pages: nat

    constructor (pages: nat)
      ensures mem == map[] && this.pages == pages
    {
      mem := map[];
      this.pages := pages;
    }

    /** `page_alloc`, and the contents the caller writes; fails when no page is left. */
    method Alloc(table: Table) returns (c: Frame)
      modifies this
      ensures c == 0 <==> old(pages) == 0
      ensures c == 0 ==> mem == old(mem) && pages == old(pages)
      ensures c != 0 ==> c !in old(mem) && mem == old(mem)[c := table] && pages == old(pages) - 1
    {
      if pages == 0 {
        return 0;
      }
      ghost var top := FreshFrame(mem.Keys);
      assert top !in mem;
      c :| c != 0 && c !in mem;
      mem := mem[c := table];
      pages := pages - 1;
    }

    /** `page_free` of a table. */
    method Free(t: Frame)
      requires t in mem
      modifies this
      ensures mem == old(mem) - {t} && pages == old(pages) + 1
    {
      mem := mem - {t};
      pages := pages + 1;
    }

    /** The loop that fills the table that replaces a huge page. */
    method Split(e: Entry, d: nat) returns (table: Table)
      requires d == 1 || d == 2
      ensures table == SplitTable(e, d)
    {
      table := [];
      var k := 0;
      while k < ENTRIES
        invariant 0 <= k <= ENTRIES && table == SplitTable(e, d)[..k]
      {
        table := table + [Entry(e.frame + k * Span(d + 1), if d == 1 then e.flags else e.flags - {Size})];
        k := k + 1;
      }
    }

    /** Hang a new table, which maps what entry `i` mapped before, behind that entry. */
    method AddTable(root: Frame, t: Frame, i: nat, table: Table, pdflags: set<Flag>, ghost tree: Places)
      returns (c: Frame)
      requires
        && IsTree(mem, root, [], tree) && t in tree && |tree[t]| < 3 && i < ENTRIES && Present in pdflags
        && Size !in pdflags
      requires t in mem && |mem[t]| == ENTRIES && MapsTheSame(mem[t][i], |tree[t]|, table)
      modifies this
      ensures c == 0 <==> old(pages) == 0
      ensures c == 0 ==> mem == old(mem) && pages == 0
      ensures c != 0 ==>
        && c !in tree && c !in old(mem) && IsTree(mem, root, [], tree[c := tree[t] + [i]])
        && SameTranslation(old(mem), mem, root, 0)
      ensures c != 0 ==> c in mem && mem[c] == table && mem.Keys == old(mem).Keys + {c} && pages == old(pages) - 1
      ensures forall u :: u in old(mem) && u != t ==> u in mem && mem[u] == old(mem)[u]
    {
      hide IsTree, SameTranslation, TableOk, MapsTheSame;
      ghost var m := mem;
      TableAt(mem, root, tree, t, i);
      c := Alloc(table);
      if c != 0 {
        TablesAllocated(m, root, tree);
        mem := mem[t := mem[t][i := Entry(c, pdflags)]];
        assert mem == WithEntry(m, t, i, Entry(c, pdflags))[c := table];
        LinkSame(m, mem, root, tree, t, i, c, table, pdflags);
      }
    }

    /** Add flags to an entry that leads to a table. */
    method AddFlags(root: Frame, t: Frame, i: nat, pdflags: set<Flag>, ghost tree: Places)
      requires
        && IsTree(mem, root, [], tree) && t in tree && |tree[t]| < 3 && i < ENTRIES && Present in pdflags
        && Size !in pdflags
      requires t in mem && |mem[t]| == ENTRIES && IsLink(mem[t][i], |tree[t]|)
      modifies this
      ensures IsTree(mem, root, [], tree) && SameTranslation(old(mem), mem, root, 0)
      ensures forall c :: c in old(mem) && c != t ==> c in mem && mem[c] == old(mem)[c]
      ensures mem.Keys == old(mem).Keys && pages == old(pages)
    {
      hide IsTree, SameTranslation, TableOk;
      ghost var m := mem;
      var e := mem[t][i];
      mem := mem[t := mem[t][i := e.(flags := e.flags + pdflags)]];
      FlagsSame(m, mem, root, tree, t, i, pdflags);
    }

    /**
     * One level of `pt_map_range`: make entry `i` of `t` lead to a table, by adding an empty one, by
     * splitting a huge page or, if it does already, by adding the flags.  No page translates differently.
     */
    method Descend(root: Frame, t: Frame, d: nat, i: nat, pdflags: set<Flag>, ghost tree: Places)
      returns (c: Frame, ghost tree': Places)
      requires
        && IsTree(mem, root, [], tree) && t in tree && |tree[t]| == d < 3 && i < ENTRIES && Present in pdflags
        && Size !in pdflags
      modifies this
      ensures t in old(mem) && |old(mem)[t]| == ENTRIES
      ensures c == 0 <==> !IsLink(old(mem)[t][i], d) && old(pages) == 0
      ensures c == 0 ==> mem == old(mem) && pages == 0 && tree' == tree
      ensures c != 0 ==> c in tree' && tree'[c] == tree[t] + [i] && Leads(old(mem), mem, t, d, i, c)
      ensures c != 0 && IsLink(old(mem)[t][i], d) ==>
        tree' == tree && mem.Keys == old(mem).Keys && pages == old(pages)
      ensures c != 0 && !IsLink(old(mem)[t][i], d) ==>
        && c !in tree && c !in old(mem) && tree' == tree[c := tree[t] + [i]] && mem.Keys == old(mem).Keys + {c}
        && pages == old(pages) - 1
      ensures IsTree(mem, root, [], tree') && SameTranslation(old(mem), mem, root, 0)
    {
      hide IsTree, SameTranslation, TableOk;
      SameAsItself(mem, root);
      TableAt(mem, root, tree, t, i);
      TablesAllocated(mem, root, tree);
      var e := mem[t][i];
      tree' := tree;
      if Present !in e.flags {
        c := AddTable(root, t, i, seq(ENTRIES, _ => ZERO), pdflags, tree);
        tree' := if c == 0 then tree else tree[c := tree[t] + [i]];
      } else if Size in e.flags {
        var table := Split(e, d);
        c := AddTable(root, t, i, table, pdflags, tree);
        tree' := if c == 0 then tree else tree[c := tree[t] + [i]];
      } else {
        c := e.frame;
        AddFlags(root, t, i, pdflags, tree);
      }
    }

    /** Whether a huge entry already maps the page to `paddr`, with these flags. */
    method AlreadyMapped(t: Frame, d: nat, path: seq<nat>, paddr: Frame, flags: set<Flag>) returns (same: bool)
      requires IsPage(path) && (d == 1 || d == 2) && t in mem && |mem[t]| == ENTRIES
      ensures same <==>
        && IsHuge(mem[t][path[d]], d) && Translate(mem, t, d, path).Some?
        && Translate(mem, t, d, path).value.frame == paddr
        && Translate(mem, t, d, path).value.flags - {Accessed, Dirty} == flags
      ensures same <==> HugeMatches(mem[t][path[d]], d, path, paddr, flags)
      ensures same ==> Gives(Translate(mem, t, d, path), paddr, flags)
    {
      var e := mem[t][path[d]];
      same := Present in e.flags && Size in e.flags
        && AlignDown(e.frame, Span(d)) == AlignDown(paddr, Span(d)) && paddr % Span(d) == Offset(path, d)
        && e.flags - {Accessed, Dirty} - {Size} == flags;
      OffsetInSpan(path, d);
      SumOfAligned(e.frame, Offset(path, d), paddr, Span(d));
    }

    /**
     * `pt_map`: succeeds if and only if there are as many pages as tables are missing on the way to the page,
     * and takes exactly those, for tables on that way.
     */
    method MapPage(root: Frame, path: seq<nat>, paddr: Frame, pdflags: set<Flag>, ptflags: set<Flag>,
                   ghost tree: Places)
      returns (ret: int, ghost tree': Places)
      requires IsTree(mem, root, [], tree) && IsPage(path)
      requires
        && Present in pdflags && Present in ptflags && Size !in pdflags && Size !in ptflags
        && (User in pdflags <==> User in ptflags)
      modifies this
      ensures IsTree(mem, root, [], tree') && (ret == 0 || ret == -ENOMEM)
      ensures root in old(mem) && |old(mem)[root]| == ENTRIES
      ensures ret == 0 <==> Missing(old(mem), root, 0, Want(path, paddr, pdflags, ptflags)) <= old(pages)
      ensures ret == 0 ==> pages == old(pages) - Missing(old(mem), root, 0, Want(path, paddr, pdflags, ptflags))
      ensures ret != 0 ==> pages == 0
      ensures pages <= old(pages) && Spent(old(mem), mem, tree, tree', path, old(pages) - pages)
      ensures ret == 0 ==>
        MapsTo(mem, root, path, paddr, if Giant(old(mem), root, path, paddr, pdflags) then pdflags else ptflags)
      ensures ret == 0 ==> OthersSame(old(mem), mem, root, path)
      ensures ret != 0 ==> SameTranslation(old(mem), mem, root, 0)
      ensures forall u :: u in old(mem) && u !in tree ==> u !in tree' && u in mem && mem[u] == old(mem)[u]
    {
      hide IsTree, SameTranslation, MapsTo, OthersSame, HugeMatches, Gives, Spent, Leads, Missing, Translate, Stops,
        Giant, Beside;
      ghost var m0 := mem;
      var want := Want(path, paddr, pdflags, ptflags);
      RootPlace(mem, root, tree);
      TableAt(mem, root, tree, root, path[0]);
      SpentNone(mem, tree, path);
      BesideNone(mem, tree);
      SameAsItself(mem, root);
      NoStop(mem[root][path[0]], want);
      var c1, tree1, n1 := Level(root, root, 0, pdflags, want, tree, tree, m0, 0);
      tree' := tree1;
      if c1 == 0 {
        BesideMeans(m0, mem, tree, tree');
        return -ENOMEM, tree';
      }
      ghost var m1 := mem;
      GiantTold(m0, m1, root, tree, c1, want);
      var same := AlreadyMapped(c1, 1, path, paddr, pdflags);
      StopTold(mem[c1][path[1]], 1, want);
      if same {
        NoneMissing(m1, c1, 1, want);
        MappedAlready(m0, m1, root, tree1, c1, path, paddr, pdflags);
        BesideMeans(m0, mem, tree, tree');
        return 0, tree';
      }
      var c2, tree2, n2 := Level(root, c1, 1, pdflags, want, tree, tree1, m0, n1);
      tree' := tree2;
      if c2 == 0 {
        BesideMeans(m0, mem, tree, tree');
        return -ENOMEM, tree';
      }
      ghost var m2 := mem;
      same := AlreadyMapped(c2, 2, path, paddr, ptflags);
      StopTold(mem[c2][path[2]], 2, want);
      if same {
        NoneMissing(m2, c2, 2, want);
        MappedAlready(m0, m2, root, tree2, c2, path, paddr, ptflags);
        BesideMeans(m0, mem, tree, tree');
        return 0, tree';
      }
      var c3, tree3, n3 := Level(root, c2, 2, pdflags, want, tree, tree2, m0, n2);
      tree' := tree3;
      if c3 == 0 {
        BesideMeans(m0, mem, tree, tree');
        return -ENOMEM, tree';
      }
      ghost var m3 := mem;
      NoneMissing(m3, c3, 3, want);
      mem := mem[c3 := mem[c3][path[3] := Entry(paddr, ptflags)]];
      SpentStill(m0, m3, mem, tree, tree3, path, n3);
      BesideStill(m0, m3, mem, tree, tree3, c3);
      BesideMeans(m0, mem, tree, tree');
      PageWritten(m0, m3, root, tree3, c3, path, Entry(paddr, ptflags));
      ret := 0;
    }

    /** One level on the way to a page, with an account of the pages taken so far. */
    method Level(root: Frame, t: Frame, d: nat, pdflags: set<Flag>, want: Mapping, ghost tree0: Places,
                 ghost tree: Places, ghost m0: Memory, ghost n: nat)
      returns (c: Frame, ghost tree': Places, ghost n': nat)
      requires IsPage(want.path) && IsTree(mem, root, [], tree) && d < 3 && t in tree && tree[t] == want.path[..d]
      requires t in mem && |mem[t]| == ENTRIES && !Stops(mem[t][want.path[d]], d, want)
      requires Present in pdflags && Size !in pdflags && SameTranslation(m0, mem, root, 0)
      requires Spent(m0, mem, tree0, tree, want.path, n) && Beside(m0, mem, tree0, tree)
      modifies this
      ensures IsTree(mem, root, [], tree') && SameTranslation(m0, mem, root, 0)
      ensures Spent(m0, mem, tree0, tree', want.path, n') && n' + pages == n + old(pages)
      ensures Beside(m0, mem, tree0, tree')
      ensures c == 0 ==> pages == 0 && old(pages) < Missing(old(mem), t, d, want)
      ensures c != 0 ==>
        && c in tree' && tree'[c] == want.path[..d + 1] && c in mem && |mem[c]| == ENTRIES
        && Leads(old(mem), mem, t, d, want.path[d], c)
        && n' + Missing(mem, c, d + 1, want) == n + Missing(old(mem), t, d, want)
    {
      hide IsTree, SameTranslation, Spent, Leads, Missing, Stops, Beside;
      ghost var m := mem;
      c, tree' := Descend(root, t, d, want.path[d], pdflags, tree);
      SameTwice(m0, m, mem, root);
      n' := n;
      if c == 0 {
        MissingOne(m, t, d, want);
        return;
      }
      assert want.path[..d] + [want.path[d]] == want.path[..d + 1];
      TableAt(mem, root, tree', c, 0);
      MissingStep(m, mem, root, tree, t, d, c, want);
      if IsLink(m[t][want.path[d]], d) {
        SpentStill(m0, m, mem, tree0, tree, want.path, n);
        LeadsBeside(m, mem, t, d, want.path[d], c);
        BesideStill(m0, m, mem, tree0, tree, t);
      } else {
        n' := n + 1;
        SpentMore(m0, m, mem, tree0, tree, tree', c, want.path[..d + 1], want.path, n);
        LeadsBeside(m, mem, t, d, want.path[d], c);
        BesideStill(m0, m, mem, tree0, tree, t);
        BesideMore(m0, m, mem, tree0, tree, c, want.path[..d + 1]);
      }
    }

    /** `pt_destroy_helper`: every table of the tree is freed, once, and nothing else. */
    method Destroy(t: Frame, depth: nat, ghost base: seq<nat>, ghost tree: Places)
      requires IsTree(mem, t, base, tree) && depth + |base| == 4
      modifies this
      ensures mem == old(mem) - tree.Keys && pages == old(pages) + |tree.Keys|
      decreases depth, 0
    {
      hide IsTree, TableOk, Freed, Behind;
      RootTable(mem, t, base, tree);
      ghost var rest := tree;
      NoneFreed(mem, t);
      assert tree.Keys - tree.Keys == {};
      var i := 0;
      while i < ENTRIES && depth != 1
        invariant 0 <= i <= ENTRIES && IsTree(mem, t, base, rest) && rest.Keys <= tree.Keys && t in mem
        invariant |mem[t]| == ENTRIES
        invariant forall k :: 0 <= k < i ==> !IsLink(mem[t][k], |base|)
        invariant Freed(old(mem), mem, t, tree.Keys - rest.Keys)
        invariant pages == old(pages) + |tree.Keys| - |rest.Keys|
        decreases ENTRIES - i
      {
        rest := DestroyEntry(t, i, depth, base, rest, tree.Keys, old(mem));
        i := i + 1;
      }
      OnlyRootLeft(mem, t, base, rest);
      AllFreed(old(mem), mem, t, tree.Keys);
      Free(t);
    }

    /** One round of that loop. */
    method DestroyEntry(t: Frame, i: nat, depth: nat, ghost base: seq<nat>, ghost rest: Places, ghost all: set<Frame>,
                        ghost m0: Memory)
      returns (ghost rest': Places)
      requires IsTree(mem, t, base, rest) && depth + |base| == 4 && depth > 1 && i < ENTRIES && t in mem
      requires |mem[t]| == ENTRIES
      requires rest.Keys <= all && Freed(m0, mem, t, all - rest.Keys)
      modifies this
      ensures IsTree(mem, t, base, rest') && rest'.Keys <= all && Freed(m0, mem, t, all - rest'.Keys)
      ensures pages == old(pages) + |rest.Keys| - |rest'.Keys| && t in mem && |mem[t]| == ENTRIES
      ensures !IsLink(mem[t][i], |base|) && forall k :: 0 <= k < ENTRIES && k != i ==> mem[t][k] == old(mem)[t][k]
      decreases depth - 1, 1
    {
      hide IsTree, TableOk, Freed, Behind;
      rest' := rest;
      var e := mem[t][i];
      if e != ZERO && Size !in e.flags {
        ghost var sub := Behind(rest, base + [i]);
        SubTree(mem, t, base, rest, i);
        SubKeys(rest, base + [i]);
        ghost var m := mem;
        Destroy(e.frame, depth - 1, base + [i], sub);
        PruneTree(m, t, base, rest, i);
        mem := mem[t := mem[t][i := ZERO]];
        assert mem == WithEntry(m, t, i, ZERO) - sub.Keys;
        MoreFreed(m0, m, mem, t, i, all, rest.Keys, sub.Keys);
        rest' := rest - sub.Keys;
        assert rest'.Keys == rest.Keys - sub.Keys;
      }
    }

    /**
     * `clone_pml4`, `clone_pdp`, `clone_pd` and `clone_pt`: copy the tree below `t`, from entry `first` on.
     * The copy translates as the original, shares no table with it, and the original is untouched.
     */
    method Clone(t: Frame, first: nat, ghost base: seq<nat>, d: nat, ghost tree: Places)
      returns (c: Frame, ghost ctree: Places)
      requires IsTree(mem, t, base, tree) && d == |base| && first <= ENTRIES && (d == 3 ==> first == 0)
      modifies this
      ensures |base| <= 3 && Kept(old(mem), mem)
      ensures c != 0 ==>
        Copied(old(mem), mem, t, c, base, ctree, first, ENTRIES) && |ctree.Keys| == Cost(tree, base, first, ENTRIES)
      ensures c != 0 <==> Cost(tree, base, first, ENTRIES) <= old(pages)
      ensures c != 0 ==> pages == old(pages) - Cost(tree, base, first, ENTRIES)
      ensures |mem.Keys| + pages == |old(mem).Keys| + old(pages)
      ensures c == 0 && d > 0 ==> pages == 0
      ensures c == 0 && d == 0 ==>
        GaveBack(tree, base, first, old(pages), pages) && (mem == old(mem) <==> pages == old(pages))
      decreases 4 - d, 1
    {
      hide IsTree, TableOk, CloneOf, Kept, Cost, Cloning, GaveBack, Copied;
      RootTable(mem, t, base, tree);
      ctree := map[];
      CostNone(tree, base, first);
      CostGrows(tree, base, first, first, ENTRIES);
      if d == 3 {
        c, ctree := CloneLast(t, base, tree);
        return;
      }
      c := Alloc(seq(ENTRIES, _ => ZERO));
      if c == 0 {
        KeptAll(mem);
        NoPages(tree, base, first);
        return;
      }
      ctree := map[c := base];
      NothingCloned(old(mem), mem, t, c, base, tree, first);
      KeyAdded(old(mem), c, mem[c]);
      var i := first;
      var ok := true;
      while i < ENTRIES
        invariant first <= i <= ENTRIES && Cloning(old(mem), mem, t, c, base, ctree, first, i)
        invariant |ctree.Keys| == Cost(tree, base, first, i) && pages == old(pages) - |ctree.Keys|
        invariant |mem.Keys| + pages == |old(mem).Keys| + old(pages)
      {
        ok, ctree := CloneEntry(t, c, first, i, base, d, tree, ctree, old(mem));
        if !ok {
          CostGrows(tree, base, first, i + 1, ENTRIES);
          if d == 0 {
            GiveUp(c, base, ctree, old(mem));
            PagesBack(tree, base, first, i, old(pages), pages);
          }
          return 0, ctree;
        }
        i := i + 1;
      }
      CloningHas(old(mem), mem, t, c, base, ctree, first, i);
    }

    /** `clone_pt`: a table of the last level is copied as it is. */
    method CloneLast(t: Frame, ghost base: seq<nat>, ghost tree: Places) returns (c: Frame, ghost ctree: Places)
      requires IsTree(mem, t, base, tree) && |base| == 3
      modifies this
      ensures Kept(old(mem), mem)
      ensures c != 0 ==> Copied(old(mem), mem, t, c, base, ctree, 0, ENTRIES) && |ctree.Keys| == 1
      ensures c == 0 <==> old(pages) == 0
      ensures pages == old(pages) - (if c == 0 then 0 else 1) && |mem.Keys| + pages == |old(mem).Keys| + old(pages)
      ensures Cost(tree, base, 0, ENTRIES) == 1
    {
      hide IsTree, TableOk, CloneOf, Kept, Cost;
      RootTable(mem, t, base, tree);
      CostOfLast(mem, t, base, tree, 0, ENTRIES);
      ghost var m0 := mem;
      c := Alloc(mem[t]);
      ctree := map[c := base];
      if c != 0 {
        LastTableCloned(m0, mem, t, c, base, tree);
        KeyAdded(m0, c, m0[t]);
      } else {
        KeptAll(mem);
      }
    }

    /** What `clone_pml4` does when a copy below it failed: the part that is linked is destroyed. */
    method GiveUp(c: Frame, ghost base: seq<nat>, ghost ctree: Places, ghost m0: Memory)
      requires IsTree(mem, c, base, ctree) && base == [] && Kept(m0, mem) && ctree.Keys !! m0.Keys
      modifies this
      ensures Kept(m0, mem) && pages == old(pages) + |ctree.Keys| && |mem.Keys| + pages == |old(mem).Keys| + old(pages)
      ensures mem == m0 <==> |mem.Keys| == |m0.Keys|
    {
      hide IsTree, Kept;
      ghost var m := mem;
      TablesIn(mem, c, base, ctree);
      Destroy(c, 4, base, ctree);
      KeptDestroyed(m0, m, mem, ctree);
      LessAndBack(m, ctree.Keys);
      SameCount(m0, mem);
    }

    /** One round of the cloning loops. */
    method CloneEntry(t: Frame, c: Frame, first: nat, i: nat, ghost base: seq<nat>, d: nat, ghost tree: Places,
                      ghost ctree: Places, ghost m0: Memory)
      returns (ok: bool, ghost ctree': Places)
      requires
        && IsTree(m0, t, base, tree) && d == |base| < 3 && first <= i < ENTRIES
        && Cloning(m0, mem, t, c, base, ctree, first, i)
      requires |ctree.Keys| == Cost(tree, base, first, i)
      modifies this
      ensures ok ==>
        Cloning(m0, mem, t, c, base, ctree', first, i + 1) && |ctree'.Keys| == Cost(tree, base, first, i + 1)
      ensures ok ==> pages == old(pages) - (|ctree'.Keys| - |ctree.Keys|)
      ensures !ok ==> pages == 0 && old(pages) + |ctree.Keys| < Cost(tree, base, first, i + 1)
      ensures |mem.Keys| + pages == |old(mem).Keys| + old(pages)
      ensures !ok ==> ctree' == ctree && IsTree(mem, c, base, ctree) && Kept(m0, mem) && ctree.Keys !! m0.Keys
      decreases 4 - d - 1, 2
    {
      hide IsTree, TableOk, CloneOf, Behind, Cost, Cloning, Kept, Copied;
      RootTable(m0, t, base, tree);
      CloningHas(m0, mem, t, c, base, ctree, first, i);
      KeptTable(m0, mem, t);
      ok, ctree' := true, ctree;
      var e := mem[t][i];
      if e == ZERO {
        CostNoLink(m0, t, base, tree, first, i);
        CloneEmpty(m0, mem, t, c, base, ctree, first, i);
      } else if Size in e.flags {
        ghost var m := mem;
        CostNoLink(m0, t, base, tree, first, i);
        mem := mem[c := mem[c][i := e]];
        assert mem.Keys == m.Keys;
        CloneHuge(m0, m, mem, t, c, base, tree, ctree, first, i);
      } else {
        ghost var m, sub := mem, Behind(tree, base + [i]);
        SubTree(m0, t, base, tree, i);
        CostStep(tree, base, first, i);
        CostOfTree(m0, e.frame, base + [i], sub);
        TreeKeptIn(m0, mem, e.frame, base + [i], sub);
        var cc, csub := Clone(e.frame, 0, base + [i], d + 1, sub);
        CloneKept(m0, m, mem, c, base, ctree);
        RootTable(mem, c, base, ctree);
        if cc == 0 {
          return false, ctree;
        }
        ghost var m1 := mem;
        mem := mem[c := mem[c][i := Entry(cc, e.flags)]];
        ctree' := ctree + csub;
        assert mem.Keys == m1.Keys;
        Linking(m0, m, m1, t, c, base, tree, ctree, first, i, cc, csub);
      }
    }
  }

  // ------------------------------------------------------ how many tables a mapping lacks

  /** What is to be mapped: a page to a frame, with flags for tables and for pages. */
  datatype Mapping = Want(path: seq<nat>, paddr: Frame, pdflags: set<Flag>, ptflags: set<Flag>)

  /** The entry maps the page already; at 1GB pages, the source compares with the flags meant for tables. */
  predicate Stops(e: Entry, d: nat, want: Mapping)
    requires IsPage(want.path)
  {
    && (d == 1 || d == 2)
    && HugeMatches(e, d, want.path, want.paddr, if d == 1 then want.pdflags else want.ptflags)
  }

  /** The entry of the table that replaces a huge page. */
  function Piece(e: Entry, d: nat, k: nat): Entry {
    Entry(e.frame + k * Span(d + 1), if d == 1 then e.flags else e.flags - {Size})
  }

  /** The tables that have to be added from an entry on: below an empty one all of them, and one per split. */
  function MissingBehind(mem: Memory, e: Entry, d: nat, want: Mapping): nat
    requires IsPage(want.path) && d <= 3
    decreases 3 - d
  {
    if d == 3 || Stops(e, d, want) then 0
    else if Present !in e.flags then 3 - d
    else if Size in e.flags then 1 + MissingBehind(mem, Piece(e, d, want.path[d + 1]), d + 1, want)
    else if e.frame !in mem || |mem[e.frame]| != ENTRIES then 0
    else MissingBehind(mem, mem[e.frame][want.path[d + 1]], d + 1, want)
  }

  function Missing(mem: Memory, t: Frame, d: nat, want: Mapping): nat
    requires IsPage(want.path) && d <= 3 && t in mem && |mem[t]| == ENTRIES
  {
    MissingBehind(mem, mem[t][want.path[d]], d, want)
  }

  /** What one level of the way does: a link is followed, otherwise there is a new table; only `t` changes. */
  ghost predicate Leads(m: Memory, mem: Memory, t: Frame, d: nat, i: nat, c: Frame) {
    && t in m && |m[t]| == ENTRIES && i < ENTRIES && c in mem
    && (forall u :: u in m && u != t ==> u in mem && mem[u] == m[u])
    && var e := m[t][i];
       if IsLink(e, d) then c == e.frame && c in m && mem[c] == m[c]
       else if Present !in e.flags then mem[c] == seq(ENTRIES, _ => ZERO)
       else (d == 1 || d == 2) && mem[c] == SplitTable(e, d)
  }

  lemma NoStop(e: Entry, want: Mapping)
    requires IsPage(want.path)
    ensures !Stops(e, 0, want)
  {
  }

  lemma StopTold(e: Entry, d: nat, want: Mapping)
    requires IsPage(want.path) && (d == 1 || d == 2)
    ensures Stops(e, d, want)
      <==> HugeMatches(e, d, want.path, want.paddr, if d == 1 then want.pdflags else want.ptflags)
  {
  }

  lemma NoneMissing(mem: Memory, t: Frame, d: nat, want: Mapping)
    requires IsPage(want.path) && d <= 3 && t in mem && |mem[t]| == ENTRIES
    requires d == 3 || Stops(mem[t][want.path[d]], d, want)
    ensures Missing(mem, t, d, want) == 0
  {
  }

  lemma MissingOne(mem: Memory, t: Frame, d: nat, want: Mapping)
    requires IsPage(want.path) && d < 3 && t in mem && |mem[t]| == ENTRIES
    requires !Stops(mem[t][want.path[d]], d, want) && !IsLink(mem[t][want.path[d]], d)
    ensures Missing(mem, t, d, want) >= 1
  {
  }

  /** The tables further down lack what they lacked, when only table `t` changes. */
  lemma {:induction false} MissingKept(m: Memory, mem: Memory, root: Frame, tree: Places, t: Frame, u: Frame,
                                       want: Mapping)
    requires IsTree(m, root, [], tree) && t in tree && u in tree && IsPage(want.path) && tree[u] <= want.path
    requires |tree[u]| > |tree[t]| && forall v :: v in m && v != t ==> v in mem && mem[v] == m[v]
    ensures |tree[u]| <= 3 && u in m && u in mem && |m[u]| == ENTRIES == |mem[u]|
    ensures Missing(mem, u, |tree[u]|, want) == Missing(m, u, |tree[u]|, want)
    decreases 4 - |tree[u]|
  {
    hide IsTree, Stops;
    NextTable(m, root, [], tree, u, want.path);
    var d := |tree[u]|;
    var e := m[u][want.path[d]];
    assert mem[u] == m[u];
    if d < 3 && Present in e.flags && Size !in e.flags {
      MissingKept(m, mem, root, tree, t, e.frame, want);
    } else if d < 3 && Present in e.flags && !Stops(e, d, want) {
      SplitMissing(m, mem, Piece(e, d, want.path[d + 1]), d + 1, want);
    }
  }

  /** What a piece of a huge page lacks does not depend on the memory. */
  lemma SplitMissing(m: Memory, mem: Memory, e: Entry, d: nat, want: Mapping)
    requires IsPage(want.path) && 2 <= d <= 3 && Present in e.flags && (d < 3 ==> Size in e.flags)
    ensures MissingBehind(m, e, d, want) == MissingBehind(mem, e, d, want)
  {
  }

  /** One level costs a table just when it adds one. */
  lemma MissingStep(m: Memory, mem: Memory, root: Frame, tree: Places, t: Frame, d: nat, c: Frame, want: Mapping)
    requires IsTree(m, root, [], tree) && t in tree && IsPage(want.path) && d < 3 && tree[t] == want.path[..d]
    requires t in m && |m[t]| == ENTRIES && !Stops(m[t][want.path[d]], d, want)
    requires Leads(m, mem, t, d, want.path[d], c) && c in mem && |mem[c]| == ENTRIES
    ensures Missing(m, t, d, want)
      == (if IsLink(m[t][want.path[d]], d) then 0 else 1) + Missing(mem, c, d + 1, want)
  {
    hide IsTree, Stops;
    var e := m[t][want.path[d]];
    TableAt(m, root, tree, t, want.path[d]);
    if IsLink(e, d) {
      NextTable(m, root, [], tree, t, want.path);
      MissingKept(m, mem, root, tree, t, c, want);
    } else if Present !in e.flags {
      ZeroMissing(mem, c, d + 1, want);
    } else {
      assert mem[c][want.path[d + 1]] == Piece(e, d, want.path[d + 1]);
      SplitMissing(m, mem, Piece(e, d, want.path[d + 1]), d + 1, want);
    }
  }

  lemma ZeroMissing(mem: Memory, c: Frame, d: nat, want: Mapping)
    requires IsPage(want.path) && d <= 3 && c in mem && |mem[c]| == ENTRIES && mem[c][want.path[d]] == ZERO
    ensures Missing(mem, c, d, want) == 3 - d
  {
  }

  /** So many tables were added to the tree, all of them on the way to the page, and nothing else. */
  ghost predicate Spent(m0: Memory, mem: Memory, tree0: Places, tree: Places, path: seq<nat>, n: nat) {
    Added(m0.Keys, mem.Keys, tree0.Keys, tree.Keys, n) && OnWay(tree0, tree, path)
  }

  ghost predicate Added(m0: set<Frame>, mem: set<Frame>, tree0: set<Frame>, tree: set<Frame>, n: nat) {
    tree0 <= tree && |tree| == |tree0| + n && mem == m0 + (tree - tree0)
  }

  ghost predicate OnWay(tree0: Places, tree: Places, path: seq<nat>) {
    Extends(tree0, tree) && forall u :: u in tree && u !in tree0 ==> tree[u] <= path
  }

  /** No table outside the tree there was has changed or come into the tree. */
  ghost predicate Beside(m0: Memory, mem: Memory, tree0: Places, tree: Places) {
    forall u :: u in m0 && u !in tree0 ==> u !in tree && u in mem && mem[u] == m0[u]
  }

  lemma BesideNone(mem: Memory, tree: Places)
    ensures Beside(mem, mem, tree, tree)
  {
  }

  lemma BesideMeans(m0: Memory, mem: Memory, tree0: Places, tree: Places)
    requires Beside(m0, mem, tree0, tree)
    ensures forall u :: u in m0 && u !in tree0 ==> u !in tree && u in mem && mem[u] == m0[u]
  {
  }

  lemma LeadsBeside(m: Memory, mem: Memory, t: Frame, d: nat, i: nat, c: Frame)
    requires Leads(m, mem, t, d, i, c)
    ensures forall u :: u in m && u != t ==> u in mem && mem[u] == m[u]
  {
  }

  lemma BesideStill(m0: Memory, m: Memory, mem: Memory, tree0: Places, tree: Places, t: Frame)
    requires Beside(m0, m, tree0, tree) && t in tree
    requires forall u :: u in m && u != t ==> u in mem && mem[u] == m[u]
    ensures Beside(m0, mem, tree0, tree)
  {
  }

  lemma BesideMore(m0: Memory, m: Memory, mem: Memory, tree0: Places, tree: Places, c: Frame, place: seq<nat>)
    requires Beside(m0, m, tree0, tree) && Beside(m0, mem, tree0, tree) && c !in m
    ensures Beside(m0, mem, tree0, tree[c := place])
  {
  }

  /** What is done in one address space leaves the tree and all translations of another one alone. */
  lemma OtherSpace(m0: Memory, mem: Memory, tree0: Places, tree: Places, root: Frame, other: Places)
    requires forall u :: u in m0 && u !in tree0 ==> u !in tree && u in mem && mem[u] == m0[u]
    requires IsTree(m0, root, [], other) && other.Keys !! tree0.Keys
    ensures IsTree(mem, root, [], other) && other.Keys !! tree.Keys && SameTranslation(m0, mem, root, 0)
  {
    hide TableOk, Linked;
    TreeKept(m0, mem, root, [], other);
    forall path | IsPage(path) ensures Translate(mem, root, 0, path) == Translate(m0, root, 0, path) {
      WalkKept(m0, mem, root, [], other, path);
    }
  }

  lemma OnWayMore(tree0: Places, tree: Places, c: Frame, place: seq<nat>, path: seq<nat>)
    requires OnWay(tree0, tree, path) && c !in tree && place <= path
    ensures OnWay(tree0, tree[c := place], path)
  {
  }

  lemma SpentNone(mem: Memory, tree: Places, path: seq<nat>)
    ensures Spent(mem, mem, tree, tree, path, 0)
  {
  }

  lemma SpentStill(m0: Memory, m: Memory, mem: Memory, tree0: Places, tree: Places, path: seq<nat>, n: nat)
    requires Spent(m0, m, tree0, tree, path, n) && mem.Keys == m.Keys
    ensures Spent(m0, mem, tree0, tree, path, n)
  {
  }

  lemma SpentMore(m0: Memory, m: Memory, mem: Memory, tree0: Places, tree: Places, tree': Places, c: Frame,
                  place: seq<nat>, path: seq<nat>, n: nat)
    requires Spent(m0, m, tree0, tree, path, n) && c !in tree && tree' == tree[c := place] && place <= path
    requires mem.Keys == m.Keys + {c}
    ensures Spent(m0, mem, tree0, tree', path, n + 1)
  {
    hide OnWay, Added;
    OnWayMore(tree0, tree, c, place, path);
    assert tree'.Keys == tree.Keys + {c};
    AddedMore(m0.Keys, m.Keys, tree0.Keys, tree.Keys, c, n);
  }

  lemma AddedMore(m0: set<Frame>, m: set<Frame>, tree0: set<Frame>, tree: set<Frame>, c: Frame, n: nat)
    requires Added(m0, m, tree0, tree, n) && c !in tree
    ensures Added(m0, m + {c}, tree0, tree + {c}, n + 1)
  {
    Union(tree, {c});
    KeysMore(m0, tree0, tree, c);
  }

  lemma KeysMore(m: set<Frame>, before: set<Frame>, now: set<Frame>, c: Frame)
    requires before <= now && c !in now
    ensures m + (now + {c} - before) == m + (now - before) + {c}
  {
  }

  /** Behind a link of the root, the 1GB entry is what it was; a new table has none. */
  lemma GiantTold(m0: Memory, mem: Memory, root: Frame, tree: Places, c: Frame, want: Mapping)
    requires IsPage(want.path) && IsTree(m0, root, [], tree) && root in m0 && |m0[root]| == ENTRIES
    requires Leads(m0, mem, root, 0, want.path[0], c) && |mem[c]| == ENTRIES
    ensures Giant(m0, root, want.path, want.paddr, want.pdflags)
      <==> HugeMatches(mem[c][want.path[1]], 1, want.path, want.paddr, want.pdflags)
  {
    hide IsTree, HugeMatches;
    RootPlace(m0, root, tree);
    TableAt(m0, root, tree, root, want.path[0]);
    NoGiant(want.path, want.paddr, want.pdflags);
  }

  lemma OffsetInSpan(path: seq<nat>, d: nat)
    requires IsPage(path)
    ensures Offset(path, d) < Span(d)
  {
  }

  /** An aligned frame and an offset in its span are those of their sum. */
  lemma SumOfAligned(x: nat, o: nat, p: nat, s: nat)
    requires o < s
    ensures AlignDown(x, s) + o == p <==> AlignDown(x, s) == AlignDown(p, s) && p % s == o
  {
    var q := x / s;
    assert AlignDown(x, s) == q * s;
    if q * s + o == p {
      DivMod(q, o, s);
    }
  }

  lemma DivMod(q: nat, o: nat, s: nat)
    requires o < s
    ensures (q * s + o) % s == o && AlignDown(q * s + o, s) == q * s
  {
    var p := q * s + o;
    var k := p / s;
    assert p == k * s + p % s;
    assert k < q ==> (k + 1) * s <= q * s;
    assert k > q ==> (q + 1) * s <= k * s;
  }

  /** Of `m0`, the tables in `gone` are freed; of the others only `t` may have changed. */
  ghost predicate Freed(m0: Memory, mem: Memory, t: Frame, gone: set<Frame>) {
    && (forall u :: u in mem <==> u in m0 && u !in gone)
    && (forall u :: u in mem && u != t ==> mem[u] == m0[u])
  }

  lemma NoneFreed(mem: Memory, t: Frame)
    ensures Freed(mem, mem, t, {})
  {
  }

  lemma SubKeys(tree: Places, place: seq<nat>)
    ensures Behind(tree, place).Keys <= tree.Keys
  {
  }

  lemma MoreFreed(m0: Memory, m: Memory, mem: Memory, t: Frame, i: nat, all: set<Frame>, rest: set<Frame>,
                  sub: set<Frame>)
    requires Freed(m0, m, t, all - rest) && t in m && |m[t]| == ENTRIES && i < ENTRIES && sub <= rest <= all
    requires t !in sub
    requires mem == WithEntry(m, t, i, ZERO) - sub
    ensures Freed(m0, mem, t, all - (rest - sub)) && |rest - sub| == |rest| - |sub|
  {
    assert rest == (rest - sub) + sub;
  }

  lemma AllFreed(m0: Memory, mem: Memory, t: Frame, all: set<Frame>)
    requires Freed(m0, mem, t, all - {t}) && t in all && t in mem
    ensures mem - {t} == m0 - all
  {
  }

  /** A translation to a frame, with these flags up to those that the processor sets. */
  predicate Gives(leaf: Option<Leaf>, paddr: Frame, flags: set<Flag>) {
    leaf.Some? && leaf.value.frame == paddr && leaf.value.flags - {Accessed, Dirty} == flags - {Accessed, Dirty}
  }

  ghost predicate MapsTo(mem: Memory, root: Frame, path: seq<nat>, paddr: Frame, flags: set<Flag>)
    requires IsPage(path)
  {
    Gives(Translate(mem, root, 0, path), paddr, flags)
  }

  predicate HugeMatches(e: Entry, d: nat, path: seq<nat>, paddr: Frame, flags: set<Flag>)
    requires IsPage(path)
  {
    && Present in e.flags && Size in e.flags
    && AlignDown(e.frame, Span(d)) == AlignDown(paddr, Span(d)) && paddr % Span(d) == Offset(path, d)
    && e.flags - {Accessed, Dirty} - {Size} == flags
  }

  /**
   * A 1GB page already maps the page to `paddr`, with the flags meant for tables, which is what the source compares.
   */
  ghost predicate Giant(mem: Memory, root: Frame, path: seq<nat>, paddr: Frame, pdflags: set<Flag>)
    requires IsPage(path)
  {
    root in mem && |mem[root]| == ENTRIES && IsLink(mem[root][path[0]], 0) &&
    var t := mem[root][path[0]].frame;
    t in mem && |mem[t]| == ENTRIES && HugeMatches(mem[t][path[1]], 1, path, paddr, pdflags)
  }

  lemma NoGiant(path: seq<nat>, paddr: Frame, flags: set<Flag>)
    requires IsPage(path)
    ensures !HugeMatches(ZERO, 1, path, paddr, flags)
  {
  }

  ghost predicate OthersSame(mem: Memory, mem': Memory, root: Frame, path: seq<nat>) {
    forall q :: IsPage(q) && q != path ==> Translate(mem', root, 0, q) == Translate(mem, root, 0, q)
  }

  lemma RootPlace(mem: Memory, root: Frame, tree: Places)
    requires IsTree(mem, root, [], tree)
    ensures root in tree && tree[root] == []
  {
  }

  lemma SameTwice(m0: Memory, m1: Memory, m2: Memory, root: Frame)
    requires SameTranslation(m0, m1, root, 0) && SameTranslation(m1, m2, root, 0)
    ensures SameTranslation(m0, m2, root, 0)
  {
    hide Translate;
  }

  lemma MappedAlready(m0: Memory, mem: Memory, root: Frame, tree: Places, t: Frame, path: seq<nat>, paddr: Frame,
                      flags: set<Flag>)
    requires
      && IsTree(mem, root, [], tree) && SameTranslation(m0, mem, root, 0) && t in tree && IsPage(path)
      && tree[t] <= path && |tree[t]| <= 3
    requires Gives(Translate(mem, t, |tree[t]|, path), paddr, flags)
    ensures MapsTo(mem, root, path, paddr, flags) && OthersSame(m0, mem, root, path)
  {
    hide Translate, IsTree;
    Reaches(mem, root, [], tree, t, path);
  }

  lemma PageWritten(m0: Memory, mem: Memory, root: Frame, tree: Places, t: Frame, path: seq<nat>, e: Entry)
    requires IsTree(mem, root, [], tree) && SameTranslation(m0, mem, root, 0) && t in tree && t in mem
    requires |mem[t]| == ENTRIES
    requires IsPage(path) && tree[t] == path[..3] && Present in e.flags
    ensures var mem' := WithEntry(mem, t, path[3], e);
      IsTree(mem', root, [], tree) && MapsTo(mem', root, path, e.frame, e.flags) && OthersSame(m0, mem', root, path)
  {
    hide IsTree, OnlyEntry;
    var mem' := WithEntry(mem, t, path[3], e);
    EntryWritten(mem, root, [], tree, t, path[3], e);
    Reaches(mem', root, [], tree, t, path);
    OnlyChanged(mem, tree, t, path[3], e);
    assert path[..3] + [path[3]] == path;
    forall q | IsPage(q) && q != path ensures Translate(mem', root, 0, q) == Translate(m0, root, 0, q) {
      assert path <= q ==> q == path;
      NotThrough(mem, mem', root, [], tree, t, path[3], q);
    }
  }

  lemma SameAsItself(mem: Memory, root: Frame)
    ensures SameTranslation(mem, mem, root, 0)
  {
  }

  /** A new table that maps what the entry it replaces mapped: nothing, or the parts of a huge page. */
  predicate MapsTheSame(e: Entry, d: nat, table: Table) {
    || (e == ZERO && table == seq(ENTRIES, _ => ZERO))
    || ((d == 1 || d == 2) && Present in e.flags && Size in e.flags && e.frame % Span(d) == 0
         && table == SplitTable(e, d))
  }

  lemma TableAt(mem: Memory, root: Frame, tree: Places, t: Frame, i: nat)
    requires IsTree(mem, root, [], tree) && t in tree && i < ENTRIES
    ensures t in mem && |mem[t]| == ENTRIES && EntryOk(mem[t][i], tree[t], i, tree)
  {
    assert TableOk(mem[t], tree[t], tree);
  }

  lemma TablesAllocated(mem: Memory, root: Frame, tree: Places)
    requires IsTree(mem, root, [], tree)
    ensures forall t :: t in tree ==> t in mem
  {
  }

  lemma MapsPlain(e: Entry, place: seq<nat>, i: nat, table: Table)
    requires |place| < 3 && MapsTheSame(e, |place|, table)
    ensures PlainTable(table, place + [i]) && !IsLink(e, |place|)
  {
    if e != ZERO {
      SplitIsPlain(e, place, i);
    }
  }

  lemma LinkSame(mem: Memory, mem': Memory, root: Frame, tree: Places, t: Frame, i: nat, c: Frame, table: Table,
                 flags: set<Flag>)
    requires IsTree(mem, root, [], tree) && t in tree && i < ENTRIES && t in mem && |mem[t]| == ENTRIES && |tree[t]| < 3
    requires MapsTheSame(mem[t][i], |tree[t]|, table) && c !in mem && c != 0 && Present in flags && Size !in flags
    requires mem' == WithEntry(mem, t, i, Entry(c, flags))[c := table]
    ensures IsTree(mem', root, [], tree[c := tree[t] + [i]]) && SameTranslation(mem, mem', root, 0)
  {
    hide IsTree, OnlyEntry, PlainTable, SplitTable;
    var d := |tree[t]|;
    MapsPlain(mem[t][i], tree[t], i, table);
    LinkTable(mem, root, [], tree, t, i, c, table, flags);
    OnlyOne(mem, tree, t, i, Entry(c, flags), c, table);
    TablesAllocated(mem, root, tree);
    forall path | IsPage(path) && tree[t] + [i] <= path
      ensures Translate(mem', t, d, path) == Translate(mem, t, d, path)
    {
      assert path[d] == i;
      if mem[t][i] == ZERO {
        ZeroBehind(mem, mem', t, d, c, flags, path);
      } else {
        SplitBehind(mem, mem', t, d, c, flags, path);
      }
    }
    SameThrough(mem, mem', root, tree, tree[c := tree[t] + [i]], t, i);
  }

  lemma FlagsSame(mem: Memory, mem': Memory, root: Frame, tree: Places, t: Frame, i: nat, flags: set<Flag>)
    requires IsTree(mem, root, [], tree) && t in tree && i < ENTRIES && t in mem && |mem[t]| == ENTRIES && |tree[t]| < 3
    requires IsLink(mem[t][i], |tree[t]|) && Present in flags && Size !in flags
    requires mem' == WithEntry(mem, t, i, mem[t][i].(flags := mem[t][i].flags + flags))
    ensures IsTree(mem', root, [], tree) && SameTranslation(mem, mem', root, 0)
  {
    hide IsTree, OnlyEntry;
    var d := |tree[t]|;
    var e := mem[t][i].(flags := mem[t][i].flags + flags);
    EntryWritten(mem, root, [], tree, t, i, e);
    var c := 0;
    OnlyChanged(mem, tree, t, i, e);
    forall path | IsPage(path) && tree[t] + [i] <= path
      ensures Translate(mem', t, d, path) == Translate(mem, t, d, path)
    {
      assert path[d] == i && tree[t] <= path;
      FlagsBehind(mem, mem', root, tree, t, path, flags);
    }
    SameThrough(mem, mem', root, tree, tree, t, i);
  }

  lemma OnlyChanged(mem: Memory, tree: Places, t: Frame, i: nat, e: Entry)
    requires t in mem && |mem[t]| == ENTRIES && i < ENTRIES
    ensures OnlyEntry(mem, WithEntry(mem, t, i, e), tree, t, i)
  {
  }

  // -------------------------------------------------------------------- subtrees

  /** The tables at or below a place. */
  function Behind(tree: Places, place: seq<nat>): Places {
    map t | t in tree && place <= tree[t] :: tree[t]
  }

  lemma RootTable(mem: Memory, root: Frame, base: seq<nat>, tree: Places)
    requires IsTree(mem, root, base, tree)
    ensures
      && root in tree && tree[root] == base && |base| <= 3 && root in mem && |mem[root]| == ENTRIES
      && TableOk(mem[root], base, tree)
    ensures root != 0
  {
  }

  /** The tables behind a link of the root form a tree. */
  lemma SubTree(mem: Memory, root: Frame, base: seq<nat>, tree: Places, i: nat)
    requires
      && IsTree(mem, root, base, tree) && root in mem && |mem[root]| == ENTRIES && i < ENTRIES
      && IsLink(mem[root][i], |base|)
    ensures IsTree(mem, mem[root][i].frame, base + [i], Behind(tree, base + [i])) && root !in Behind(tree, base + [i])
  {
    hide Linked;
    var c, sub := mem[root][i].frame, Behind(tree, base + [i]);
    assert TableOk(mem[root], base, tree) && EntryOk(mem[root][i], base, i, tree);
    forall t | t in sub ensures TableOk(mem[t], sub[t], sub) {
      BelowOk(mem[t], tree[t], tree, base + [i]);
    }
    forall u | u in sub && u != c ensures Linked(mem, sub, u) {
      LinkBelow(mem, root, base, tree, base + [i], c, u);
    }
  }

  lemma BelowOk(table: Table, place: seq<nat>, tree: Places, top: seq<nat>)
    requires TableOk(table, place, tree) && top <= place
    ensures TableOk(table, place, Behind(tree, top))
  {
    forall k | 0 <= k < ENTRIES ensures EntryOk(table[k], place, k, Behind(tree, top)) {
      assert EntryOk(table[k], place, k, tree);
    }
  }

  lemma LinkBelow(mem: Memory, root: Frame, base: seq<nat>, tree: Places, top: seq<nat>, c: Frame, u: Frame)
    requires IsTree(mem, root, base, tree) && c in tree && tree[c] == top && u in tree && top <= tree[u] && u != c
    requires u != root
    ensures Linked(mem, Behind(tree, top), u)
  {
    hide TableOk;
    var sub := Behind(tree, top);
    var v := Parent(mem, root, base, tree, u);
    assert tree[u] != top;
    assert top <= tree[v];
    assert v in sub && sub[v] == sub[u][..|sub[u]| - 1];
  }

  /** Taking the tables behind a link away, with the link. */
  lemma PruneTree(mem: Memory, root: Frame, base: seq<nat>, tree: Places, i: nat)
    requires IsTree(mem, root, base, tree) && root in mem && |mem[root]| == ENTRIES && i < ENTRIES && |base| < 3
    ensures var sub := Behind(tree, base + [i]);
      IsTree(WithEntry(mem, root, i, ZERO) - sub.Keys, root, base, tree - sub.Keys)
  {
    hide Linked;
    var sub := Behind(tree, base + [i]);
    var mem', tree' := WithEntry(mem, root, i, ZERO) - sub.Keys, tree - sub.Keys;
    forall t | t in tree' ensures t in mem' && TableOk(mem'[t], tree'[t], tree') {
      PrunedOk(mem[t], mem'[t], tree[t], tree, base, i, t == root);
    }
    forall u | u in tree' && u != root ensures Linked(mem', tree', u) {
      PrunedLink(mem, root, base, tree, i, u);
    }
  }

  lemma PrunedOk(table: Table, table': Table, place: seq<nat>, tree: Places, base: seq<nat>, i: nat, changed: bool)
    requires
      && TableOk(table, place, tree) && i < ENTRIES && base <= place && !(base + [i] <= place)
      && (changed <==> place == base)
    requires table' == if changed then table[i := ZERO] else table
    ensures TableOk(table', place, tree - Behind(tree, base + [i]).Keys)
  {
    forall k | 0 <= k < ENTRIES ensures EntryOk(table'[k], place, k, tree - Behind(tree, base + [i]).Keys) {
      assert EntryOk(table[k], place, k, tree);
      if place != base || k != i {
        NotBehind(base, i, place, k);
      }
    }
  }

  lemma NotBehind(base: seq<nat>, i: nat, place: seq<nat>, k: nat)
    requires base <= place && !(base + [i] <= place) && (place == base ==> k != i)
    ensures !(base + [i] <= place + [k])
  {
    var n := |base|;
    if n < |place| {
      assert (place + [k])[n] == place[n] && place[..n + 1] == base + [place[n]];
    } else {
      assert place == base && (place + [k])[n] == k;
    }
  }

  lemma PrunedLink(mem: Memory, root: Frame, base: seq<nat>, tree: Places, i: nat, u: Frame)
    requires IsTree(mem, root, base, tree) && root in mem && |mem[root]| == ENTRIES && i < ENTRIES
    requires u in tree && u != root && !(base + [i] <= tree[u])
    ensures var sub := Behind(tree, base + [i]); Linked(WithEntry(mem, root, i, ZERO) - sub.Keys, tree - sub.Keys, u)
  {
    hide TableOk;
    var sub := Behind(tree, base + [i]);
    var mem', tree' := WithEntry(mem, root, i, ZERO) - sub.Keys, tree - sub.Keys;
    var v := Parent(mem, root, base, tree, u);
    var n := |tree[u]| - 1;
    assert tree[u] == tree[v] + [tree[u][n]];
    assert !(base + [i] <= tree[v]);
    assert mem'[v][tree[u][n]] == mem[v][tree[u][n]];
    assert v in tree' && tree'[v] == tree'[u][..|tree'[u]| - 1];
  }

  /** A root without links is alone. */
  lemma OnlyRootLeft(mem: Memory, root: Frame, base: seq<nat>, tree: Places)
    requires IsTree(mem, root, base, tree) && root in mem && |mem[root]| == ENTRIES
    requires |base| == 3 || forall k :: 0 <= k < ENTRIES ==> !IsLink(mem[root][k], |base|)
    ensures tree.Keys == {root}
  {
    hide IsTree;
    RootTable(mem, root, base, tree);
    forall c | c in tree ensures c == root {
      NoneBelowRoot(mem, root, base, tree, c);
    }
  }

  lemma {:induction false} NoneBelowRoot(mem: Memory, root: Frame, base: seq<nat>, tree: Places, c: Frame)
    requires IsTree(mem, root, base, tree) && root in mem && |mem[root]| == ENTRIES && c in tree
    requires |base| == 3 || forall k :: 0 <= k < ENTRIES ==> !IsLink(mem[root][k], |base|)
    ensures c == root
    decreases |tree[c]|
  {
    if c != root {
      var v := Parent(mem, root, base, tree, c);
      NoneBelowRoot(mem, root, base, tree, v);
    }
  }

  // ------------------------------------------------------- how many pages a copy takes

  /** The tables behind the entries `first .. to` of the root. */
  function Part(tree: Places, base: seq<nat>, first: nat, to: nat): set<Frame> {
    set t | t in tree && |base| < |tree[t]| && base <= tree[t] && first <= tree[t][|base|] < to
  }

  /** What a copy of these entries takes, with the root's own page. */
  function Cost(tree: Places, base: seq<nat>, first: nat, to: nat): nat {
    1 + |Part(tree, base, first, to)|
  }

  lemma CostNone(tree: Places, base: seq<nat>, first: nat)
    ensures Cost(tree, base, first, first) == 1
  {
    assert Part(tree, base, first, first) == {};
  }

  lemma CostOfLast(mem: Memory, root: Frame, base: seq<nat>, tree: Places, first: nat, to: nat)
    requires IsTree(mem, root, base, tree) && |base| == 3
    ensures Cost(tree, base, first, to) == 1
  {
    hide Linked;
    assert Part(tree, base, first, to) == {};
  }

  lemma Union(a: set<Frame>, b: set<Frame>)
    requires a !! b
    ensures |a + b| == |a| + |b|
  {
  }

  lemma BehindEntry(base: seq<nat>, i: nat, place: seq<nat>)
    ensures base + [i] <= place <==> |base| < |place| && base <= place && place[|base|] == i
  {
    if |base| < |place| && base <= place {
      assert place[..|base| + 1] == base + [place[|base|]];
    }
  }

  lemma CostStep(tree: Places, base: seq<nat>, first: nat, i: nat)
    requires first <= i
    ensures Cost(tree, base, first, i + 1) == Cost(tree, base, first, i) + |Behind(tree, base + [i]).Keys|
  {
    var a, b := Part(tree, base, first, i), Behind(tree, base + [i]).Keys;
    forall t | t in tree ensures t in b <==> |base| < |tree[t]| && base <= tree[t] && tree[t][|base|] == i {
      BehindEntry(base, i, tree[t]);
    }
    assert Part(tree, base, first, i + 1) == a + b;
    Union(a, b);
  }

  lemma {:induction false} CostGrows(tree: Places, base: seq<nat>, first: nat, i: nat, j: nat)
    requires first <= i <= j
    ensures Cost(tree, base, first, i) <= Cost(tree, base, first, j)
    decreases j
  {
    if i < j {
      CostGrows(tree, base, first, i, j - 1);
      CostStep(tree, base, first, j - 1);
    }
  }

  /** An entry that is not a link costs nothing. */
  lemma CostNoLink(mem: Memory, root: Frame, base: seq<nat>, tree: Places, first: nat, i: nat)
    requires
      && IsTree(mem, root, base, tree) && root in mem && |mem[root]| == ENTRIES && first <= i < ENTRIES
      && !IsLink(mem[root][i], |base|)
    ensures Cost(tree, base, first, i + 1) == Cost(tree, base, first, i)
  {
    hide IsTree;
    CostStep(tree, base, first, i);
    forall t | t in tree ensures !(base + [i] <= tree[t]) {
      EmptyBelow(mem, root, base, tree, i, t);
    }
    assert Behind(tree, base + [i]).Keys == {};
  }

  /** The indices that lead to a table are indices of entries. */
  lemma {:induction false} PlaceBound(mem: Memory, root: Frame, base: seq<nat>, tree: Places, c: Frame)
    requires IsTree(mem, root, base, tree) && c in tree && c != root
    ensures base <= tree[c] && |base| < |tree[c]| && tree[c][|base|] < ENTRIES
    decreases |tree[c]|
  {
    hide TableOk, Linked;
    var v := Parent(mem, root, base, tree, c);
    if v != root {
      PlaceBound(mem, root, base, tree, v);
    }
  }

  /** A whole tree costs as many pages as it has tables. */
  lemma CostOfTree(mem: Memory, root: Frame, base: seq<nat>, tree: Places)
    requires IsTree(mem, root, base, tree)
    ensures Cost(tree, base, 0, ENTRIES) == |tree.Keys|
  {
    hide IsTree;
    RootTable(mem, root, base, tree);
    var a := Part(tree, base, 0, ENTRIES);
    forall c | c in tree && c != root ensures c in a {
      PlaceBound(mem, root, base, tree, c);
    }
    assert tree.Keys == {root} + a;
    Union({root}, a);
  }

  lemma LessAndBack(m: Memory, gone: set<Frame>)
    requires gone <= m.Keys
    ensures |(m - gone).Keys| == |m.Keys| - |gone|
  {
    assert m.Keys == (m - gone).Keys + gone;
    Union((m - gone).Keys, gone);
  }

  /** As many tables as before and none of them changed: nothing happened. */
  lemma SameCount(m0: Memory, mem: Memory)
    requires Kept(m0, mem)
    ensures |mem.Keys| >= |m0.Keys| && (mem == m0 <==> |mem.Keys| == |m0.Keys|)
  {
    var extra := mem.Keys - m0.Keys;
    assert mem.Keys == m0.Keys + extra;
    Union(m0.Keys, extra);
    if |mem.Keys| == |m0.Keys| {
      assert extra == {};
    }
  }

  /** What a failing copy leaves: the pages ran out behind entry `i`, and what the entries before it took is back. */
  ghost predicate GaveBack(tree: Places, base: seq<nat>, first: nat, before: nat, after: nat) {
    if before == 0 then after == 0
    else exists i :: first <= i < ENTRIES && RanOut(tree, base, first, i, before) && after == Cost(tree, base, first, i)
  }

  predicate RanOut(tree: Places, base: seq<nat>, first: nat, i: nat, pages: nat) {
    Cost(tree, base, first, i) <= pages < Cost(tree, base, first, i + 1)
  }

  lemma NoPages(tree: Places, base: seq<nat>, first: nat)
    ensures GaveBack(tree, base, first, 0, 0)
  {
  }

  lemma PagesBack(tree: Places, base: seq<nat>, first: nat, i: nat, before: nat, after: nat)
    requires first <= i < ENTRIES && after == Cost(tree, base, first, i) <= before < Cost(tree, base, first, i + 1)
    ensures GaveBack(tree, base, first, before, after)
  {
    hide Cost;
    CostNone(tree, base, first);
    CostGrows(tree, base, first, first, i);
    assert RanOut(tree, base, first, i, before);
  }

  /** A failing copy loses nothing if and only if the pages run out between two entries of the top table, or at once. */
  lemma NothingLost(tree: Places, base: seq<nat>, first: nat, before: nat, after: nat)
    requires GaveBack(tree, base, first, before, after)
    ensures after == before <==> before == 0 || exists k :: first <= k < ENTRIES && Cost(tree, base, first, k) == before
  {
    hide Cost;
    if before > 0 {
      var i :| first <= i < ENTRIES && RanOut(tree, base, first, i, before) && after == Cost(tree, base, first, i);
      forall k | first <= k < ENTRIES && Cost(tree, base, first, k) == before ensures after == before {
        if k > i {
          CostGrows(tree, base, first, i + 1, k);
        } else {
          CostGrows(tree, base, first, k, i);
        }
      }
    }
  }

  /** With one page mapped and two pages left, a clone fails and gives back only one of the two. */
  method LosesOne(path: seq<nat>, paddr: Frame, flags: set<Flag>) returns (c: Frame, left: nat)
    requires IsPage(path) && Present in flags && Size !in flags
    ensures c == 0 && left == 1
  {
    hide IsTree, Missing, MapsTo, OthersSame, Spent, GaveBack, Cost, Kept, SameTranslation, Giant;
    var m := new PageMap(6);
    var root := m.Alloc(seq(ENTRIES, _ => ZERO));
    ghost var tree: Places := map[root := []];
    OneTable(m.mem, root, [], m.mem[root]);
    ZeroMissing(m.mem, root, 0, Want(path, paddr, flags, flags));
    ghost var m0 := m.mem;
    var ret, tree' := m.MapPage(root, path, paddr, flags, flags, tree);
    assert m.pages == 2;
    OneWay(m0, m.mem, root, tree, tree', path);
    forall i: nat ensures Cost(tree', [], 0, i) == if i <= path[0] then 1 else 4 {
      WayCost(m.mem, root, tree', path, i);
    }
    ghost var ctree;
    c, ctree := m.Clone(root, 0, [], 0, tree');
    left := m.pages;
    WayLoses(tree', path, left);
  }

  /** Three tables were added, all of them on the way to the page. */
  lemma OneWay(m0: Memory, mem: Memory, root: Frame, tree0: Places, tree: Places, path: seq<nat>)
    requires Spent(m0, mem, tree0, tree, path, 3) && tree0 == map[root := []] && IsPage(path)
    ensures |tree.Keys| == 4 && root in tree && tree[root] == [] && forall u :: u in tree ==> tree[u] <= path
  {
  }

  /** A copy of the entries before that way costs one page, and of more all four. */
  lemma WayCost(mem: Memory, root: Frame, tree: Places, path: seq<nat>, i: nat)
    requires IsTree(mem, root, [], tree) && IsPage(path) && |tree.Keys| == 4
    requires forall u :: u in tree ==> tree[u] <= path
    ensures Cost(tree, [], 0, i) == if i <= path[0] then 1 else 4
  {
    hide TableOk, Linked;
    var a := Part(tree, [], 0, i);
    forall u | u in tree && u != root ensures tree[u] != [] && tree[u][0] == path[0] {
    }
    if i <= path[0] {
      assert a == {};
    } else {
      assert tree.Keys == {root} + a;
      Union({root}, a);
    }
  }

  lemma WayLoses(tree: Places, path: seq<nat>, left: nat)
    requires IsPage(path) && forall i: nat :: Cost(tree, [], 0, i) == if i <= path[0] then 1 else 4
    requires GaveBack(tree, [], 0, 2, left)
    ensures left == 1
  {
    hide Cost;
  }

  /** A page that a 1GB page maps with the flags meant for tables is taken as mapped, with flags nobody asked for. */
  method GiantFlags(path: seq<nat>, paddr: Frame) returns (m: PageMap, root: Frame, ret: int)
    requires IsPage(path) && paddr == Offset(path, 1)
    ensures ret == 0 && MapsTo(m.mem, root, path, paddr, {Present, Write})
    ensures !MapsTo(m.mem, root, path, paddr, {Present})
  {
    hide IsTree, Missing, OthersSame, Spent, SameTranslation, Translate, Giant;
    m := new PageMap(2);
    var empty := seq(ENTRIES, _ => ZERO);
    var pdp := m.Alloc(empty[path[1] := Entry(0, {Present, Write, Size})]);
    root := m.Alloc(empty[path[0] := Entry(pdp, {Present, Write})]);
    ghost var tree: Places := map[root := [], pdp := [path[0]]];
    TwoTables(m.mem, root, pdp, path);
    GiantThere(m.mem, root, pdp, path);
    ghost var tree';
    ret, tree' := m.MapPage(root, path, paddr, {Present, Write}, {Present}, tree);
    assert Write in {Present, Write} - {Accessed, Dirty} && Write !in {Present} - {Accessed, Dirty};
  }

  lemma TwoTables(mem: Memory, root: Frame, pdp: Frame, path: seq<nat>)
    requires IsPage(path) && root in mem && pdp in mem && root != pdp && root != 0 && pdp != 0
    requires var empty := seq(ENTRIES, _ => ZERO);
      && mem[root] == empty[path[0] := Entry(pdp, {Present, Write})]
      && mem[pdp] == empty[path[1] := Entry(0, {Present, Write, Size})]
    ensures IsTree(mem, root, [], map[root := [], pdp := [path[0]]])
  {
    hide Linked;
    var tree: Places := map[root := [], pdp := [path[0]]];
    NewLink(mem, tree, root, path[0], pdp);
  }

  lemma GiantThere(mem: Memory, root: Frame, pdp: Frame, path: seq<nat>)
    requires IsPage(path) && root in mem && pdp in mem && |mem[root]| == ENTRIES == |mem[pdp]|
    requires mem[root][path[0]] == Entry(pdp, {Present, Write})
    requires mem[pdp][path[1]] == Entry(0, {Present, Write, Size})
    ensures Giant(mem, root, path, Offset(path, 1), {Present, Write})
    ensures Missing(mem, root, 0, Want(path, Offset(path, 1), {Present, Write}, {Present})) == 0
  {
    OffsetInSpan(path, 1);
    assert {Present, Write, Size} - {Accessed, Dirty} - {Size} == {Present, Write};
    var want := Want(path, Offset(path, 1), {Present, Write}, {Present});
    NoneMissing(mem, pdp, 1, want);
  }

  lemma KeyAdded(m: Memory, c: Frame, table: Table)
    requires c !in m
    ensures |m[c := table].Keys| == |m.Keys| + 1
  {
    assert m[c := table].Keys == m.Keys + {c};
    Union(m.Keys, {c});
  }

  // --------------------------------------------------------------------- cloning

  /** Every table of `m0` is still there, unchanged. */
  ghost predicate Kept(m0: Memory, mem: Memory) {
    forall u :: u in m0 ==> u in mem && mem[u] == m0[u]
  }

  /** Pages behind entries `from .. to` of `c` translate as behind those of `t` before; other pages do not. */
  ghost predicate CloneOf(m0: Memory, mem: Memory, t: Frame, c: Frame, base: seq<nat>, from: nat, to: nat)
    requires |base| <= 3
  {
    forall path :: IsPage(path) && base <= path ==>
      Translate(mem, c, |base|, path) == if from <= path[|base|] < to then Translate(m0, t, |base|, path) else None
  }

  /** A tree whose tables are unchanged is the same tree, with the same translations. */
  lemma TreeKept(mem: Memory, mem': Memory, root: Frame, base: seq<nat>, tree: Places)
    requires IsTree(mem, root, base, tree) && forall u :: u in tree ==> u in mem && u in mem' && mem'[u] == mem[u]
    ensures IsTree(mem', root, base, tree)
  {
    hide TableOk;
    forall u | u in tree && u != root ensures Linked(mem', tree, u) {
      var v := Parent(mem, root, base, tree, u);
    }
  }

  lemma WalkKept(mem: Memory, mem': Memory, root: Frame, base: seq<nat>, tree: Places, path: seq<nat>)
    requires
      && IsTree(mem, root, base, tree) && IsPage(path) && base <= path
      && forall u :: u in tree ==> u in mem && u in mem' && mem'[u] == mem[u]
    ensures |base| <= 3 && Translate(mem', root, |base|, path) == Translate(mem, root, |base|, path)
  {
    hide TableOk, Linked;
    WalkFrame(mem, mem', root, base, tree, root, path);
  }

  /** No table sits below an entry of the root that is not a link. */
  lemma {:induction false} EmptyBelow(mem: Memory, root: Frame, base: seq<nat>, tree: Places, i: nat, c: Frame)
    requires
      && IsTree(mem, root, base, tree) && root in mem && |mem[root]| == ENTRIES && i < ENTRIES
      && !IsLink(mem[root][i], |base|) && c in tree
    ensures !(base + [i] <= tree[c])
    decreases |tree[c]|
  {
    if c != root {
      var v := Parent(mem, root, base, tree, c);
      EmptyBelow(mem, root, base, tree, i, v);
      var n := |tree[c]| - 1;
      assert tree[c] == tree[v] + [tree[c][n]];
      if tree[v] == base {
        assert v == root;
      }
      NotBehind(base, i, tree[v], tree[c][n]);
    }
  }

  /** A tree is hung behind an empty entry of the root of another. */
  lemma GraftTree(mem: Memory, root: Frame, base: seq<nat>, tree: Places, i: nat, c: Frame, sub: Places,
                  flags: set<Flag>)
    requires
      && IsTree(mem, root, base, tree) && root in mem && |mem[root]| == ENTRIES && i < ENTRIES && |base| < 3
      && mem[root][i] == ZERO
    requires IsTree(mem, c, base + [i], sub) && tree.Keys !! sub.Keys && Present in flags && Size !in flags
    ensures IsTree(WithEntry(mem, root, i, Entry(c, flags)), root, base, tree + sub)
  {
    hide Linked, TableOk;
    var mem', all := WithEntry(mem, root, i, Entry(c, flags)), tree + sub;
    forall t | t in all ensures TableOk(mem'[t], all[t], all) {
      GraftedTable(mem, root, base, tree, i, c, sub, flags, t);
    }
    forall t | t in tree ensures !(base + [i] <= tree[t]) {
      EmptyBelow(mem, root, base, tree, i, t);
    }
    forall u | u in all && u != root ensures Linked(mem', all, u) {
      GraftedLink(mem, root, base, tree, i, c, sub, flags, u);
    }
  }

  lemma GraftedTable(mem: Memory, root: Frame, base: seq<nat>, tree: Places, i: nat, c: Frame, sub: Places,
                     flags: set<Flag>, t: Frame)
    requires IsTree(mem, root, base, tree) && root in mem && |mem[root]| == ENTRIES && i < ENTRIES && |base| < 3
    requires IsTree(mem, c, base + [i], sub) && tree.Keys !! sub.Keys && Present in flags && Size !in flags
    requires t in tree + sub
    ensures TableOk(WithEntry(mem, root, i, Entry(c, flags))[t], (tree + sub)[t], tree + sub)
  {
    hide Linked;
    var all := tree + sub;
    var table := WithEntry(mem, root, i, Entry(c, flags))[t];
    forall k | 0 <= k < ENTRIES ensures EntryOk(table[k], all[t], k, all) {
      if t in tree {
        assert TableOk(mem[t], tree[t], tree) && EntryOk(mem[t][k], tree[t], k, tree);
      } else {
        assert TableOk(mem[t], sub[t], sub) && EntryOk(mem[t][k], sub[t], k, sub);
      }
    }
  }

  lemma GraftedLink(mem: Memory, root: Frame, base: seq<nat>, tree: Places, i: nat, c: Frame, sub: Places,
                    flags: set<Flag>, u: Frame)
    requires
      && IsTree(mem, root, base, tree) && root in mem && |mem[root]| == ENTRIES && i < ENTRIES && |base| < 3
      && mem[root][i] == ZERO
    requires IsTree(mem, c, base + [i], sub) && tree.Keys !! sub.Keys && Size !in flags && u in tree + sub && u != root
    ensures Linked(WithEntry(mem, root, i, Entry(c, flags)), tree + sub, u)
  {
    hide IsTree, TableOk, Linked;
    RootTable(mem, root, base, tree);
    RootTable(mem, c, base + [i], sub);
    var mem', all := WithEntry(mem, root, i, Entry(c, flags)), tree + sub;
    if u == c {
      NewLink(mem', all, root, i, c);
    } else if u in sub {
      var v := Parent(mem, c, base + [i], sub, u);
      LastOf(sub[u]);
      NewLink(mem', all, v, sub[u][|sub[u]| - 1], u);
    } else {
      var v := Parent(mem, root, base, tree, u);
      LastOf(tree[u]);
      NewLink(mem', all, v, tree[u][|tree[u]| - 1], u);
    }
  }

  lemma LastOf(place: seq<nat>)
    requires place != []
    ensures place == place[..|place| - 1] + [place[|place| - 1]]
  {
  }

  /** A tree of new tables below `c` that translates as the entries `from .. to` of `t`. */
  ghost predicate Copied(m0: Memory, mem: Memory, t: Frame, c: Frame, base: seq<nat>, ctree: Places, from: nat, to: nat)
    requires |base| <= 3
  {
    && IsTree(mem, c, base, ctree) && ctree.Keys !! m0.Keys && mem.Keys == m0.Keys + ctree.Keys
    && CloneOf(m0, mem, t, c, base, from, to)
  }

  /** The state of a cloning loop before entry `i`. */
  ghost predicate Cloning(m0: Memory, mem: Memory, t: Frame, c: Frame, base: seq<nat>, ctree: Places, first: nat,
                          i: nat)
    requires |base| <= 3
  {
    && Copied(m0, mem, t, c, base, ctree, first, i) && Kept(m0, mem)
    && c in mem && |mem[c]| == ENTRIES && forall k :: i <= k < ENTRIES ==> mem[c][k] == ZERO
  }

  lemma CloningHas(m0: Memory, mem: Memory, t: Frame, c: Frame, base: seq<nat>, ctree: Places, first: nat, i: nat)
    requires |base| <= 3 && Cloning(m0, mem, t, c, base, ctree, first, i)
    ensures
      && Copied(m0, mem, t, c, base, ctree, first, i) && IsTree(mem, c, base, ctree) && Kept(m0, mem)
      && ctree.Keys !! m0.Keys
    ensures c in mem && |mem[c]| == ENTRIES && c != 0
  {
    hide CloneOf, Kept;
    RootTable(mem, c, base, ctree);
  }

  lemma KeptTable(m0: Memory, mem: Memory, t: Frame)
    requires Kept(m0, mem) && t in m0
    ensures t in mem && mem[t] == m0[t]
  {
  }

  lemma KeysAdded(m: Memory, c: Frame, base: seq<nat>, ctree: Places, csub: Places)
    requires IsTree(m, c, base, ctree) && csub.Keys !! m.Keys
    ensures |(ctree + csub).Keys| == |ctree.Keys| + |csub.Keys|
  {
    TablesIn(m, c, base, ctree);
    hide IsTree;
    assert (ctree + csub).Keys == ctree.Keys + csub.Keys;
    Union(ctree.Keys, csub.Keys);
  }

  lemma KeptAll(mem: Memory)
    ensures Kept(mem, mem)
  {
  }

  lemma KeptDestroyed(m0: Memory, m: Memory, mem: Memory, ctree: Places)
    requires Kept(m0, m) && ctree.Keys !! m0.Keys && mem == m - ctree.Keys
    ensures Kept(m0, mem)
  {
  }

  lemma OneTable(mem: Memory, c: Frame, base: seq<nat>, table: Table)
    requires c != 0 && c in mem && mem[c] == table && |table| == ENTRIES && |base| <= 3
    requires |base| == 3 || forall k :: 0 <= k < ENTRIES ==> table[k] == ZERO
    ensures IsTree(mem, c, base, map[c := base])
  {
  }

  lemma LastTableCloned(m0: Memory, mem: Memory, t: Frame, c: Frame, base: seq<nat>, tree: Places)
    requires IsTree(m0, t, base, tree) && |base| == 3 && t in m0 && c !in m0 && c != 0 && mem == m0[c := m0[t]]
    ensures Kept(m0, mem) && IsTree(mem, c, base, map[c := base]) && (map[c := base]).Keys !! m0.Keys
    ensures mem.Keys == m0.Keys + (map[c := base]).Keys && CloneOf(m0, mem, t, c, base, 0, ENTRIES)
  {
    RootTable(m0, t, base, tree);
    hide IsTree;
    OneTable(mem, c, base, m0[t]);
  }

  lemma NothingCloned(m0: Memory, mem: Memory, t: Frame, c: Frame, base: seq<nat>, tree: Places, first: nat)
    requires |base| < 3 && c !in m0 && c != 0 && mem == m0[c := seq(ENTRIES, _ => ZERO)]
    ensures Cloning(m0, mem, t, c, base, map[c := base], first, first)
  {
    hide IsTree;
    OneTable(mem, c, base, mem[c]);
  }

  lemma CloneEmpty(m0: Memory, mem: Memory, t: Frame, c: Frame, base: seq<nat>, ctree: Places, first: nat, i: nat)
    requires |base| < 3 && first <= i < ENTRIES && Cloning(m0, mem, t, c, base, ctree, first, i)
    requires t in m0 && |m0[t]| == ENTRIES && m0[t][i] == ZERO
    ensures Cloning(m0, mem, t, c, base, ctree, first, i + 1)
  {
    hide IsTree;
    assert CloneOf(m0, mem, t, c, base, first, i);
  }

  lemma TreeKeptIn(m0: Memory, mem: Memory, root: Frame, base: seq<nat>, tree: Places)
    requires IsTree(m0, root, base, tree) && Kept(m0, mem)
    ensures IsTree(mem, root, base, tree)
  {
    hide TableOk, Linked;
    TreeKept(m0, mem, root, base, tree);
  }

  lemma CloneKept(m0: Memory, m: Memory, mem: Memory, c: Frame, base: seq<nat>, ctree: Places)
    requires IsTree(m, c, base, ctree) && Kept(m0, m) && Kept(m, mem)
    ensures IsTree(mem, c, base, ctree) && Kept(m0, mem)
  {
    TreeKeptIn(m, mem, c, base, ctree);
  }

  lemma HugeWritten(mem: Memory, c: Frame, base: seq<nat>, ctree: Places, i: nat, e: Entry)
    requires IsTree(mem, c, base, ctree) && c in mem && |mem[c]| == ENTRIES && i < ENTRIES && mem[c][i] == ZERO
    requires (|base| == 1 || |base| == 2) && Present in e.flags && Size in e.flags && e.frame % Span(|base|) == 0
    ensures IsTree(WithEntry(mem, c, i, e), c, base, ctree)
  {
    hide Linked;
    var mem' := WithEntry(mem, c, i, e);
    OnlyChanged(mem, ctree, c, i, e);
    forall u | u in ctree ensures TableOk(mem'[u], ctree[u], ctree) {
      HugeTable(mem[u], mem'[u], ctree[u], ctree, u == c, i, e);
    }
    forall u | u in ctree && u != c ensures Linked(mem', ctree, u) {
      StillLinked(mem, mem', c, base, ctree, ctree, c, i, u);
    }
  }

  lemma HugeTable(table: Table, table': Table, place: seq<nat>, tree: Places, changed: bool, i: nat, e: Entry)
    requires TableOk(table, place, tree) && i < ENTRIES && table' == if changed then table[i := e] else table
    requires changed ==>
      (|place| == 1 || |place| == 2) && Present in e.flags && Size in e.flags && e.frame % Span(|place|) == 0
    ensures TableOk(table', place, tree)
  {
    forall k | 0 <= k < ENTRIES ensures EntryOk(table'[k], place, k, tree) {
      assert EntryOk(table[k], place, k, tree);
    }
  }

  lemma CloneHuge(m0: Memory, m: Memory, mem: Memory, t: Frame, c: Frame, base: seq<nat>, tree: Places, ctree: Places,
                  first: nat, i: nat)
    requires IsTree(m0, t, base, tree) && |base| < 3 && first <= i < ENTRIES
    requires Cloning(m0, m, t, c, base, ctree, first, i)
    requires t in m0 && |m0[t]| == ENTRIES && m0[t][i] != ZERO && Size in m0[t][i].flags
    requires mem == WithEntry(m, c, i, m0[t][i])
    ensures Cloning(m0, mem, t, c, base, ctree, first, i + 1)
  {
    hide IsTree, TableOk, Kept, OnlyEntry;
    RootEntry(m0, t, base, tree, i);
    assert CloneOf(m0, m, t, c, base, first, i);
    RootTable(m, c, base, ctree);
    KeptEntry(m0, m, c, i, m0[t][i], ctree);
    HugeWritten(m, c, base, ctree, i, m0[t][i]);
    OnlyChanged(m, ctree, c, i, m0[t][i]);
    forall path | IsPage(path) && base <= path
      ensures Translate(mem, c, |base|, path)
          == if first <= path[|base|] < i + 1 then Translate(m0, t, |base|, path) else None
    {
      if path[|base|] != i {
        OtherEntry(base, i, path);
        NotThrough(m, mem, c, base, ctree, c, i, path);
      }
    }
  }

  lemma OtherEntry(base: seq<nat>, i: nat, path: seq<nat>)
    requires base <= path && |base| < |path| && path[|base|] != i
    ensures !(base + [i] <= path)
  {
  }

  lemma Linking(m0: Memory, m: Memory, m1: Memory, t: Frame, c: Frame, base: seq<nat>, tree: Places, ctree: Places,
                first: nat, i: nat, cc: Frame, csub: Places)
    requires IsTree(m0, t, base, tree) && |base| < 3 && first <= i < ENTRIES
    requires Cloning(m0, m, t, c, base, ctree, first, i)
    requires t in m0 && |m0[t]| == ENTRIES && IsLink(m0[t][i], |base|) && Kept(m, m1)
    requires Copied(m, m1, m0[t][i].frame, cc, base + [i], csub, 0, ENTRIES)
    ensures |(ctree + csub).Keys| == |ctree.Keys| + |csub.Keys|
    ensures
      && c in m1 && |m1[c]| == ENTRIES
      && Cloning(m0, WithEntry(m1, c, i, Entry(cc, m0[t][i].flags)), t, c, base, ctree + csub, first, i + 1)
  {
    hide IsTree, Kept, CloneOf, Cloning;
    CloningHas(m0, m, t, c, base, ctree, first, i);
    KeysAdded(m, c, base, ctree, csub);
    CloneLink(m0, m, m1, t, c, base, tree, ctree, first, i, cc, csub);
  }

  lemma CloneLink(m0: Memory, m: Memory, m1: Memory, t: Frame, c: Frame, base: seq<nat>, tree: Places, ctree: Places,
                  first: nat, i: nat, cc: Frame, csub: Places)
    requires IsTree(m0, t, base, tree) && |base| < 3 && first <= i < ENTRIES
    requires Cloning(m0, m, t, c, base, ctree, first, i)
    requires t in m0 && |m0[t]| == ENTRIES && IsLink(m0[t][i], |base|) && Kept(m, m1)
    requires IsTree(m1, cc, base + [i], csub) && csub.Keys !! m.Keys && m1.Keys == m.Keys + csub.Keys
    requires CloneOf(m, m1, m0[t][i].frame, cc, base + [i], 0, ENTRIES)
    ensures
      && c in m1 && |m1[c]| == ENTRIES
      && Cloning(m0, WithEntry(m1, c, i, Entry(cc, m0[t][i].flags)), t, c, base, ctree + csub, first, i + 1)
  {
    hide IsTree, TableOk, Kept, OnlyEntry, CloneOf;
    RootEntry(m0, t, base, tree, i);
    var e := m0[t][i];
    TreeKeptIn(m, m1, c, base, ctree);
    KeptTables(m, m1, c, base, ctree);
    RootTable(m1, c, base, ctree);
    RootTable(m1, cc, base + [i], csub);
    TablesIn(m, c, base, ctree);
    GraftTree(m1, c, base, ctree, i, cc, csub, e.flags);
    CloneLinkMemory(m0, m, m1, c, i, Entry(cc, e.flags), ctree, csub);
    CloneLinkWalks(m0, m, m1, t, c, base, tree, ctree, first, i, cc, csub);
  }

  lemma CloneLinkMemory(m0: Memory, m: Memory, m1: Memory, c: Frame, i: nat, e: Entry, ctree: Places, csub: Places)
    requires ctree.Keys !! m0.Keys && m.Keys == m0.Keys + ctree.Keys && Kept(m0, m) && Kept(m, m1) && c in ctree
    requires c in m
    requires csub.Keys !! m.Keys && m1.Keys == m.Keys + csub.Keys && |m[c]| == ENTRIES && i < ENTRIES
    requires forall k :: i <= k < ENTRIES ==> m[c][k] == ZERO
    ensures c in m1 && |m1[c]| == ENTRIES
    ensures var mem' := WithEntry(m1, c, i, e);
      && (ctree + csub).Keys !! m0.Keys && mem'.Keys == m0.Keys + (ctree + csub).Keys && Kept(m0, mem')
      && |mem'[c]| == ENTRIES && forall k :: i + 1 <= k < ENTRIES ==> mem'[c][k] == ZERO
  {
    assert (ctree + csub).Keys == ctree.Keys + csub.Keys;
  }

  lemma CloneLinkWalks(m0: Memory, m: Memory, m1: Memory, t: Frame, c: Frame, base: seq<nat>, tree: Places,
                       ctree: Places, first: nat, i: nat, cc: Frame, csub: Places)
    requires IsTree(m0, t, base, tree) && |base| < 3 && first <= i < ENTRIES && CloneOf(m0, m, t, c, base, first, i)
    requires
      && IsTree(m, c, base, ctree) && IsTree(m1, c, base, ctree) && c in m1 && |m1[c]| == ENTRIES && c !in csub
      && Kept(m0, m) && Kept(m, m1)
    requires t in m0 && |m0[t]| == ENTRIES && IsLink(m0[t][i], |base|)
    requires IsTree(m1, cc, base + [i], csub) && CloneOf(m, m1, m0[t][i].frame, cc, base + [i], 0, ENTRIES)
    ensures CloneOf(m0, WithEntry(m1, c, i, Entry(cc, m0[t][i].flags)), t, c, base, first, i + 1)
  {
    hide IsTree, Translate, Kept, OnlyEntry;
    var e := m0[t][i];
    var mem' := WithEntry(m1, c, i, Entry(cc, e.flags));
    KeptTables(m, m1, c, base, ctree);
    RootTable(m1, c, base, ctree);
    OnlyChanged(m1, ctree, c, i, Entry(cc, e.flags));
    forall path | IsPage(path) && base <= path
      ensures Translate(mem', c, |base|, path)
          == if first <= path[|base|] < i + 1 then Translate(m0, t, |base|, path) else None
    {
      if path[|base|] != i {
        OtherEntry(base, i, path);
        NotThrough(m1, mem', c, base, ctree, c, i, path);
        WalkKept(m, m1, c, base, ctree, path);
      } else {
        ClonedBehind(m0, m, m1, t, c, base, tree, i, cc, csub, path);
      }
    }
  }

  lemma KeptTables(m: Memory, m1: Memory, c: Frame, base: seq<nat>, ctree: Places)
    requires IsTree(m, c, base, ctree) && Kept(m, m1)
    ensures forall u :: u in ctree ==> u in m && u in m1 && m1[u] == m[u]
  {
    hide TableOk, Linked;
  }

  lemma KeptEntry(m0: Memory, m: Memory, c: Frame, i: nat, e: Entry, ctree: Places)
    requires Kept(m0, m) && c in ctree && ctree.Keys !! m0.Keys && c in m && i < |m[c]|
    ensures Kept(m0, WithEntry(m, c, i, e))
  {
  }

  lemma RootEntry(mem: Memory, root: Frame, base: seq<nat>, tree: Places, i: nat)
    requires IsTree(mem, root, base, tree) && i < ENTRIES
    ensures
      && root in tree && tree[root] == base && |base| <= 3 && root in mem && |mem[root]| == ENTRIES
      && EntryOk(mem[root][i], base, i, tree)
  {
    hide Linked;
    assert TableOk(mem[root], base, tree);
  }

  lemma TablesIn(mem: Memory, root: Frame, base: seq<nat>, tree: Places)
    requires IsTree(mem, root, base, tree)
    ensures forall t :: t in tree ==> t in mem
  {
  }

  /** A walk through the linked copy ends where the walk through the original did. */
  lemma ClonedBehind(m0: Memory, m: Memory, m1: Memory, t: Frame, c: Frame, base: seq<nat>, tree: Places, i: nat,
                     cc: Frame, csub: Places, path: seq<nat>)
    requires IsTree(m0, t, base, tree) && |base| < 3 && i < ENTRIES && IsPage(path) && base <= path && path[|base|] == i
    requires
      && t in m0 && |m0[t]| == ENTRIES && IsLink(m0[t][i], |base|) && Kept(m0, m) && c in m1 && |m1[c]| == ENTRIES
      && c !in csub
    requires IsTree(m1, cc, base + [i], csub) && CloneOf(m, m1, m0[t][i].frame, cc, base + [i], 0, ENTRIES)
    ensures Translate(WithEntry(m1, c, i, Entry(cc, m0[t][i].flags)), c, |base|, path) == Translate(m0, t, |base|, path)
  {
    hide IsTree, TableOk;
    RootEntry(m0, t, base, tree, i);
    var e := m0[t][i];
    var d := |base|;
    var mem' := WithEntry(m1, c, i, Entry(cc, e.flags));
    assert base + [i] <= path by {
      assert path[..d + 1] == base + [i];
    }
    SubTree(m0, t, base, tree, i);
    TablesIn(m0, e.frame, base + [i], Behind(tree, base + [i]));
    WalkKept(m0, m, e.frame, base + [i], Behind(tree, base + [i]), path);
    TablesIn(m1, cc, base + [i], csub);
    WalkKept(m1, mem', cc, base + [i], csub, path);
    assert |base + [i]| == d + 1 && path[d + 1] < ENTRIES;
    OneStep(m0, t, d, path);
    OneStep(mem', c, d, path);
  }

  lemma OneStep(mem: Memory, t: Frame, d: nat, path: seq<nat>)
    requires
      && IsPage(path) && d < 3 && t in mem && |mem[t]| == ENTRIES && Present in mem[t][path[d]].flags
      && Size !in mem[t][path[d]].flags
    ensures Translate(mem, t, d, path) == Translate(mem, mem[t][path[d]].frame, d + 1, path)
  {
  }
}
