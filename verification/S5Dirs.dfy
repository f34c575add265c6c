/**
 * Directories and link counts of S5FS: every directory is an array of entries, every inode
 * counts the entries that name it, and `s5fs_check_refcounts` recounts them from the root.
 */
module S5Dirs {
  type Ino = nat
  type Name = string

  const EEXIST := 17
  const EISDIR := 21
  const ENOENT := 2
  const ENOSPC := 28
  const ENOTDIR := 20
  const ENOTEMPTY := 39
  const ENAMETOOLONG := 36
  const EFBIG := 27
  const NAME_LEN := 28
  const DIRENT_SIZE := 32
  const BLOCK_SIZE := 4096
  const MAX_BLOCKS := 1052

  const DOT: Name := "."
  const DOTDOT: Name := ".."

  datatype Dirent = Dirent(ino: Ino, name: Name)

  /** An inode: a file of any other kind, or a directory with its entries. */
  datatype Node = File(links: nat) | Dir(links: nat, entries: seq<Dirent>)

  type Nodes = map<Ino, Node>

  /** A directory as its vnode sees it: `vn_len` in bytes, and the blocks it has. */
  datatype Extent = Extent(len: nat, blocks: nat)

  type Extents = map<Ino, Extent>

  // ----------------------------------------------------------- one entry array

  ghost predicate DistinctNames(es: seq<Dirent>) {
    forall i, j :: 0 <= i < j < |es| ==> es[i].name != es[j].name
  }

  /** The position of a name, or the number of entries. */
  function Find(es: seq<Dirent>, name: Name): (k: nat)
    ensures k <= |es| && (k < |es| ==> es[k].name == name) && forall i :: 0 <= i < k ==> es[i].name != name
  {
    if es == [] || es[0].name == name then 0 else 1 + Find(es[1..], name)
  }

  /** The directory as a map from names to inodes. */
  function Names(es: seq<Dirent>): map<Name, Ino> {
    if es == [] then map[] else Names(es[..|es| - 1])[es[|es| - 1].name := es[|es| - 1].ino]
  }

  /** How many of the entries name inode `i`. */
  function Named(es: seq<Dirent>, i: Ino): nat {
    if es == [] then 0 else Named(es[..|es| - 1], i) + if es[|es| - 1].ino == i then 1 else 0
  }

  /** Overwrite the entry by the last one and cut that off. */
  function Removed(es: seq<Dirent>, k: nat): seq<Dirent>
    requires k < |es|
  {
    var n := |es| - 1;
    if k < n then es[..n][k := es[n]] else es[..n]
  }

  lemma {:induction false} NamesAt(es: seq<Dirent>, name: Name)
    requires DistinctNames(es)
    ensures name in Names(es) <==> exists k :: 0 <= k < |es| && es[k].name == name
    ensures forall k :: 0 <= k < |es| && es[k].name == name ==> name in Names(es) && Names(es)[name] == es[k].ino
  {
    if es != [] {
      var n := |es| - 1;
      NamesAt(es[..n], name);
      assert forall k :: 0 <= k < n ==> es[..n][k] == es[k];
    }
  }

  lemma RemovedAt(es: seq<Dirent>, k: nat, i: nat)
    requires k < |es| && i < |es| - 1
    ensures Removed(es, k)[i] == if i == k then es[|es| - 1] else es[i]
  {
  }

  lemma RemovedDistinct(es: seq<Dirent>, k: nat)
    requires DistinctNames(es) && k < |es|
    ensures DistinctNames(Removed(es, k))
  {
    var r := Removed(es, k);
    forall i, j | 0 <= i < j < |r| ensures r[i].name != r[j].name {
      RemovedAt(es, k, i);
      RemovedAt(es, k, j);
    }
  }

  lemma RemovedLookup(es: seq<Dirent>, k: nat, name: Name)
    requires DistinctNames(es) && k < |es|
    ensures var r := Removed(es, k);
      && DistinctNames(r) && (name in Names(r) <==> name in Names(es) && name != es[k].name)
      && (name in Names(r) ==> Names(r)[name] == Names(es)[name])
  {
    hide Names, Removed;
    var r, n := Removed(es, k), |es| - 1;
    RemovedDistinct(es, k);
    assert |r| == n by {
      RemovedSize(es, k);
    }
    NamesAt(es, name);
    NamesAt(r, name);
    if name in Names(es) {
      var i :| 0 <= i < |es| && es[i].name == name;
      if i != k {
        RemovedAt(es, k, if i == n then k else i);
      }
    }
    if name in Names(r) {
      var i :| 0 <= i < |r| && r[i].name == name;
      RemovedAt(es, k, i);
    }
  }

  lemma RemovedSize(es: seq<Dirent>, k: nat)
    requires k < |es|
    ensures |Removed(es, k)| == |es| - 1
  {
  }

  /** Removal takes exactly that name out of the map; all other entries stay. */
  lemma RemovedNames(es: seq<Dirent>, k: nat)
    requires DistinctNames(es) && k < |es|
    ensures DistinctNames(Removed(es, k)) && Names(Removed(es, k)) == Names(es) - {es[k].name}
  {
    hide Names, Removed;
    RemovedDistinct(es, k);
    forall name ensures var r := Removed(es, k);
      && (name in Names(r) <==> name in Names(es) && name != es[k].name)
      && (name in Names(r) ==> Names(r)[name] == Names(es)[name])
    {
      RemovedLookup(es, k, name);
    }
  }

  lemma {:induction false} NamedAppend(es: seq<Dirent>, e: Dirent, i: Ino)
    ensures Named(es + [e], i) == Named(es, i) + if e.ino == i then 1 else 0
  {
    assert (es + [e])[..|es|] == es;
  }

  lemma {:induction false} NamedUpdate(es: seq<Dirent>, k: nat, e: Dirent, i: Ino)
    requires k < |es|
    ensures Named(es[k := e], i) == Named(es, i) - (if es[k].ino == i then 1 else 0) + if e.ino == i then 1 else 0
  {
    var n := |es| - 1;
    if k < n {
      NamedUpdate(es[..n], k, e, i);
      assert es[k := e][..n] == es[..n][k := e];
    } else {
      assert es[k := e][..n] == es[..n];
    }
  }

  lemma RemovedCount(es: seq<Dirent>, k: nat, i: Ino)
    requires k < |es|
    ensures Named(Removed(es, k), i) == Named(es, i) - if es[k].ino == i then 1 else 0
  {
    var n := |es| - 1;
    if k < n {
      NamedUpdate(es[..n], k, es[n], i);
    }
  }

  lemma {:induction false} NamedPositive(es: seq<Dirent>, i: Ino)
    ensures Named(es, i) > 0 <==> exists k :: 0 <= k < |es| && es[k].ino == i
  {
    if es != [] {
      var n := |es| - 1;
      NamedPositive(es[..n], i);
      assert forall k :: 0 <= k < n ==> es[..n][k] == es[k];
    }
  }

  // ------------------------------------------------------------- all entries

  function EntriesOf(nodes: Nodes, d: Ino): seq<Dirent> {
    if d in nodes && nodes[d].Dir? then nodes[d].entries else []
  }

  /** The entries that name `i` in the directories below `n` that are in `dirs`. */
  function Links(nodes: Nodes, dirs: set<Ino>, n: nat, i: Ino): nat {
    if n == 0 then 0 else Links(nodes, dirs, n - 1, i) + if n - 1 in dirs then Named(EntriesOf(nodes, n - 1), i) else 0
  }

  lemma EntriesAre(nodes: Nodes, d: Ino)
    requires d in nodes && nodes[d].Dir?
    ensures EntriesOf(nodes, d) == nodes[d].entries
  {
  }

  lemma {:induction false} LinksChange(nodes: Nodes, nodes': Nodes, dirs: set<Ino>, n: nat, i: Ino, d: Ino)
    requires forall x :: x != d ==> EntriesOf(nodes', x) == EntriesOf(nodes, x)
    ensures Links(nodes', dirs, n, i) == Links(nodes, dirs, n, i)
      + if d < n && d in dirs then Named(EntriesOf(nodes', d), i) - Named(EntriesOf(nodes, d), i) else 0
  {
    if n > 0 {
      LinksChange(nodes, nodes', dirs, n - 1, i, d);
    }
  }

  lemma {:induction false} LinksAdd(nodes: Nodes, dirs: set<Ino>, n: nat, i: Ino, d: Ino)
    requires d !in dirs
    ensures Links(nodes, dirs + {d}, n, i)
      == Links(nodes, dirs, n, i) + if d < n then Named(EntriesOf(nodes, d), i) else 0
  {
    if n > 0 {
      LinksAdd(nodes, dirs, n - 1, i, d);
    }
  }

  lemma {:induction false} LinksOf(nodes: Nodes, dirs: set<Ino>, n: nat, i: Ino, d: Ino)
    requires d in dirs && d < n
    ensures Links(nodes, dirs, n, i) >= Named(EntriesOf(nodes, d), i)
  {
    if d < n - 1 {
      LinksOf(nodes, dirs, n - 1, i, d);
    }
  }

  lemma {:induction false} LinksSame(nodes: Nodes, dirs: set<Ino>, dirs': set<Ino>, n: nat, i: Ino)
    requires forall d: Ino :: d < n && EntriesOf(nodes, d) != [] ==> (d in dirs <==> d in dirs')
    ensures Links(nodes, dirs, n, i) == Links(nodes, dirs', n, i)
  {
    if n > 0 {
      LinksSame(nodes, dirs, dirs', n - 1, i);
    }
  }

  lemma {:induction false} LinksOnly(nodes: Nodes, dirs: set<Ino>, n: nat, i: Ino, d: Ino)
    requires d in dirs && forall x: Ino :: x < n && x != d ==> Named(EntriesOf(nodes, x), i) == 0
    ensures Links(nodes, dirs, n, i) == if d < n then Named(EntriesOf(nodes, d), i) else 0
  {
    if n > 0 {
      LinksOnly(nodes, dirs, n - 1, i, d);
    }
  }

  // ------------------------------------------------------------------ the invariant

  function Inos(n: nat): (r: set<Ino>)
    ensures forall x: Ino :: x in r <==> x < n
  {
    if n == 0 then {} else Inos(n - 1) + {n - 1}
  }

  /** A directory that is linked into the tree; a removed one has no entries any more. */
  predicate IsLive(nodes: Nodes, d: Ino) {
    d in nodes && nodes[d].Dir? && |nodes[d].entries| >= 2
  }

  /** The depth of every live directory, as the length of its way up to the root. */
  type Depths = map<Ino, nat>

  /** An entry other than "." and "..": a directory is one level further down and points back. */
  ghost predicate ChildOk(nodes: Nodes, depth: Depths, root: Ino, d: Ino, e: Dirent) {
    && e.ino in nodes
    && (nodes[e.ino].Dir? ==>
          && IsLive(nodes, e.ino) && e.ino != root && nodes[e.ino].entries[1].ino == d
          && e.ino in depth && d in depth && depth[e.ino] == depth[d] + 1)
  }

  /** The directory's "..": the root's own number, or a live directory one level up that names this one. */
  ghost predicate ParentOk(nodes: Nodes, depth: Depths, root: Ino, d: Ino)
    requires IsLive(nodes, d)
  {
    var p := nodes[d].entries[1].ino;
    if d == root then p == root
    else
      && IsLive(nodes, p) && p in depth && d in depth && depth[d] == depth[p] + 1
      && HasChild(nodes[p].entries, d)
  }

  ghost predicate DirOk(nodes: Nodes, depth: Depths, root: Ino, d: Ino)
    requires IsLive(nodes, d)
  {
    var es := nodes[d].entries;
    && DistinctNames(es) && es[0] == Dirent(d, DOT) && es[1].name == DOTDOT && ParentOk(nodes, depth, root, d)
    && (forall k :: 2 <= k < |es| ==> ChildOk(nodes, depth, root, d, es[k]))
    && (forall j, k :: 2 <= j < k < |es| && es[j].ino == es[k].ino ==> es[j].ino in nodes && nodes[es[j].ino].File?)
  }

  ghost predicate Tree(nodes: Nodes, depth: Depths, root: Ino) {
    && IsLive(nodes, root) && root in depth && depth[root] == 0
    && (forall d :: d in nodes && nodes[d].Dir? && nodes[d].entries != [] ==>
         IsLive(nodes, d) && DirOk(nodes, depth, root, d))
  }

  /** Every inode's link count is the number of entries that name it. */
  ghost predicate Counts(nodes: Nodes, n: nat) {
    forall i :: i in nodes ==> i < n && nodes[i].links == Links(nodes, Inos(n), n, i)
  }

  /** What is no longer linked is still held by somebody. */
  ghost predicate Orphans(nodes: Nodes, held: set<Ino>) {
    && (forall i :: i in nodes && nodes[i].links == 0 ==> i in held)
    && (forall i :: i in held ==> i in nodes)
  }

  ghost predicate Inv(nodes: Nodes, depth: Depths, root: Ino, held: set<Ino>, n: nat) {
    Tree(nodes, depth, root) && Counts(nodes, n) && Orphans(nodes, held)
  }

  /** An inode that no entry names. */
  lemma Unnamed(nodes: Nodes, n: nat, d: Ino, k: nat)
    requires Counts(nodes, n) && d in nodes && k < |EntriesOf(nodes, d)| && EntriesOf(nodes, d)[k].ino in nodes
    ensures nodes[EntriesOf(nodes, d)[k].ino].links > 0
  {
    var i := EntriesOf(nodes, d)[k].ino;
    NamedPositive(EntriesOf(nodes, d), i);
    LinksOf(nodes, Inos(n), n, i, d);
  }

  // ------------------------------------------------------------------ link and unlink

  /** The entry array of `d` and the link count of `f` change together. */
  function Changed(nodes: Nodes, d: Ino, es: seq<Dirent>, f: Ino, links: nat): Nodes
    requires d in nodes && nodes[d].Dir? && f in nodes && f != d
  {
    nodes[d := nodes[d].(entries := es)][f := nodes[f].(links := links)]
  }

  /** `s5_link` of a file under a new name. */
  function Linked(nodes: Nodes, d: Ino, name: Name, f: Ino): Nodes
    requires d in nodes && nodes[d].Dir? && f in nodes && f != d
  {
    Changed(nodes, d, nodes[d].entries + [Dirent(f, name)], f, nodes[f].links + 1)
  }

  /** `s5_remove_dirent`. */
  function Unlinked(nodes: Nodes, d: Ino, k: nat): Nodes
    requires d in nodes && nodes[d].Dir? && k < |nodes[d].entries|
    requires var f := nodes[d].entries[k].ino; f in nodes && f != d && nodes[f].links > 0
  {
    var f := nodes[d].entries[k].ino;
    Changed(nodes, d, Removed(nodes[d].entries, k), f, nodes[f].links - 1)
  }

  lemma LinkedCounts(nodes: Nodes, n: nat, d: Ino, name: Name, f: Ino)
    requires Counts(nodes, n) && d in nodes && nodes[d].Dir? && f in nodes && f != d
    ensures Counts(Linked(nodes, d, name, f), n)
  {
    hide Named, Links, Inos;
    var nodes' := Linked(nodes, d, name, f);
    forall i | i in nodes' ensures nodes'[i].links == Links(nodes', Inos(n), n, i) {
      LinksChange(nodes, nodes', Inos(n), n, i, d);
      NamedAppend(nodes[d].entries, Dirent(f, name), i);
    }
  }

  lemma UnlinkedCounts(nodes: Nodes, n: nat, d: Ino, k: nat)
    requires Counts(nodes, n) && d in nodes && nodes[d].Dir? && k < |nodes[d].entries|
    requires var f := nodes[d].entries[k].ino; f in nodes && f != d && nodes[f].links > 0
    ensures Counts(Unlinked(nodes, d, k), n)
  {
    hide Named, Links, Inos, Removed;
    var nodes' := Unlinked(nodes, d, k);
    forall i | i in nodes' ensures nodes'[i].links == Links(nodes', Inos(n), n, i) {
      LinksChange(nodes, nodes', Inos(n), n, i, d);
      RemovedCount(nodes[d].entries, k, i);
    }
  }

  /** Only the entries of `d`, from position 2 on, and the link counts differ. */
  ghost predicate SameShape(nodes: Nodes, nodes': Nodes, d: Ino) {
    && nodes'.Keys == nodes.Keys
    && (forall x :: x in nodes ==> nodes'[x].Dir? == nodes[x].Dir?)
    && (forall x :: x in nodes && nodes[x].Dir? && x != d ==> nodes'[x].entries == nodes[x].entries)
    && IsLive(nodes, d) && IsLive(nodes', d) && nodes'[d].entries[..2] == nodes[d].entries[..2]
  }

  /** The entries for directories are still there. */
  ghost predicate KeepsDirs(nodes: Nodes, es: seq<Dirent>, es': seq<Dirent>) {
    forall k :: 2 <= k < |es| && es[k].ino in nodes && nodes[es[k].ino].Dir? ==> HasChild(es', es[k].ino)
  }

  ghost predicate HasChild(es: seq<Dirent>, c: Ino) {
    exists k :: 2 <= k < |es| && es[k].ino == c
  }

  lemma GrownKeeps(nodes: Nodes, es: seq<Dirent>, e: Dirent)
    ensures KeepsDirs(nodes, es, es + [e])
  {
    forall k | 2 <= k < |es| && es[k].ino in nodes && nodes[es[k].ino].Dir? ensures HasChild(es + [e], es[k].ino) {
      assert (es + [e])[k] == es[k];
    }
  }

  lemma LinkedTree(nodes: Nodes, depth: Depths, root: Ino, d: Ino, name: Name, f: Ino)
    requires
      && Tree(nodes, depth, root) && IsLive(nodes, d) && f in nodes && nodes[f].File?
      && Find(nodes[d].entries, name) == |nodes[d].entries|
    ensures Tree(Linked(nodes, d, name, f), depth, root)
  {
    hide DirOk, KeepsDirs;
    var nodes', es := Linked(nodes, d, name, f), nodes[d].entries;
    assert nodes'[d].entries[..2] == es[..2];
    assert SameShape(nodes, nodes', d);
    GrownKeeps(nodes, es, Dirent(f, name));
    forall x | x in nodes' && nodes'[x].Dir? && nodes'[x].entries != []
      ensures IsLive(nodes', x) && DirOk(nodes', depth, root, x)
    {
      if x == d {
        GrownDir(nodes, nodes', depth, root, d, Dirent(f, name));
      } else {
        OtherDir(nodes, nodes', depth, root, d, x);
      }
    }
  }

  lemma OtherDir(nodes: Nodes, nodes': Nodes, depth: Depths, root: Ino, d: Ino, x: Ino)
    requires SameShape(nodes, nodes', d) && x != d && IsLive(nodes, x) && DirOk(nodes, depth, root, x)
    requires KeepsDirs(nodes, nodes[d].entries, nodes'[d].entries)
    ensures IsLive(nodes', x) && DirOk(nodes', depth, root, x)
  {
    var es := nodes[x].entries;
    forall k | 2 <= k < |es| ensures ChildOk(nodes', depth, root, x, es[k]) {
      assert ChildOk(nodes, depth, root, x, es[k]);
      assert es[k].ino == d ==> nodes'[d].entries[..2][1] == nodes[d].entries[..2][1];
    }
  }

  lemma GrownDir(nodes: Nodes, nodes': Nodes, depth: Depths, root: Ino, d: Ino, e: Dirent)
    requires SameShape(nodes, nodes', d) && IsLive(nodes, d) && DirOk(nodes, depth, root, d)
    requires nodes'[d].entries == nodes[d].entries + [e] && e.ino in nodes && nodes[e.ino].File?
    requires forall k :: 0 <= k < |nodes[d].entries| ==> nodes[d].entries[k].name != e.name
    ensures DirOk(nodes', depth, root, d)
  {
    var es, es' := nodes[d].entries, nodes'[d].entries;
    forall k | 2 <= k < |es'| ensures ChildOk(nodes', depth, root, d, es'[k]) {
      if k < |es| {
        assert ChildOk(nodes, depth, root, d, es[k]);
      }
    }
  }

  lemma ShrunkKeeps(nodes: Nodes, es: seq<Dirent>, k: nat)
    requires 2 <= k < |es| && es[k].ino in nodes && nodes[es[k].ino].File?
    ensures KeepsDirs(nodes, es, Removed(es, k))
  {
    var r, n := Removed(es, k), |es| - 1;
    forall j | 2 <= j < |es| && es[j].ino in nodes && nodes[es[j].ino].Dir? ensures HasChild(r, es[j].ino) {
      RemovedAt(es, k, if j == n then k else j);
      assert r[if j == n then k else j].ino == es[j].ino;
    }
  }

  /** The directory that loses an entry; every entry left was there before, at some position. */
  lemma ShrunkDir(nodes: Nodes, nodes': Nodes, depth: Depths, root: Ino, d: Ino, k: nat)
    requires SameShape(nodes, nodes', d) && DirOk(nodes, depth, root, d) && 2 <= k < |nodes[d].entries|
    requires nodes'[d].entries == Removed(nodes[d].entries, k)
    requires forall x :: x in nodes && x != d && nodes[x].Dir? ==> nodes'[x].entries == nodes[x].entries
    requires nodes[d].entries[1].ino == d ==> d == root
    ensures DirOk(nodes', depth, root, d)
  {
    var es, r, n := nodes[d].entries, Removed(nodes[d].entries, k), |nodes[d].entries| - 1;
    RemovedDistinct(es, k);
    RemovedAt(es, k, 0);
    RemovedAt(es, k, 1);
    forall j | 2 <= j < |r| ensures ChildOk(nodes', depth, root, d, r[j]) {
      RemovedAt(es, k, j);
      assert ChildOk(nodes, depth, root, d, es[if j == k then n else j]);
    }
    forall i, j | 2 <= i < j < |r| && r[i].ino == r[j].ino ensures r[i].ino in nodes' && nodes'[r[i].ino].File? {
      RemovedAt(es, k, i);
      RemovedAt(es, k, j);
    }
  }

  lemma UnlinkedTree(nodes: Nodes, depth: Depths, root: Ino, d: Ino, k: nat)
    requires Tree(nodes, depth, root) && IsLive(nodes, d) && 2 <= k < |nodes[d].entries|
    requires var f := nodes[d].entries[k].ino; f in nodes && nodes[f].File? && nodes[f].links > 0
    ensures Tree(Unlinked(nodes, d, k), depth, root)
  {
    hide DirOk, KeepsDirs, Removed;
    var nodes', es := Unlinked(nodes, d, k), nodes[d].entries;
    RemovedSize(es, k);
    RemovedAt(es, k, 0);
    RemovedAt(es, k, 1);
    assert nodes'[d].entries[..2] == es[..2];
    assert SameShape(nodes, nodes', d);
    ShrunkKeeps(nodes, es, k);
    forall x | x in nodes' && nodes'[x].Dir? && nodes'[x].entries != []
      ensures IsLive(nodes', x) && DirOk(nodes', depth, root, x)
    {
      if x == d {
        NotOwnParent(nodes, depth, root, d);
        ShrunkDir(nodes, nodes', depth, root, d, k);
      } else {
        OtherDir(nodes, nodes', depth, root, d, x);
      }
    }
  }

  lemma NotOwnParent(nodes: Nodes, depth: Depths, root: Ino, d: Ino)
    requires IsLive(nodes, d) && DirOk(nodes, depth, root, d)
    ensures nodes[d].entries[1].ino == d ==> d == root
  {
  }

  /** Freeing an inode that no entry names. */
  lemma Freed(nodes: Nodes, depth: Depths, root: Ino, n: nat, f: Ino)
    requires
      && Tree(nodes, depth, root) && Counts(nodes, n) && f in nodes && nodes[f].links == 0
      && (nodes[f].Dir? ==> nodes[f].entries == [])
    ensures Tree(nodes - {f}, depth, root) && Counts(nodes - {f}, n)
  {
    hide Links, Named, Inos;
    var nodes' := nodes - {f};
    forall i | i in nodes' ensures nodes'[i].links == Links(nodes', Inos(n), n, i) {
      LinksChange(nodes, nodes', Inos(n), n, i, f);
    }
    forall x | x in nodes' && nodes'[x].Dir? && nodes'[x].entries != []
      ensures IsLive(nodes', x) && DirOk(nodes', depth, root, x)
    {
      FreedDir(nodes, depth, root, n, f, x);
    }
  }

  lemma FreedDir(nodes: Nodes, depth: Depths, root: Ino, n: nat, f: Ino, x: Ino)
    requires
      && Tree(nodes, depth, root) && Counts(nodes, n) && f in nodes && nodes[f].links == 0
      && (nodes[f].Dir? ==> nodes[f].entries == [])
    requires x in nodes && x != f && nodes[x].Dir? && nodes[x].entries != []
    ensures IsLive(nodes - {f}, x) && DirOk(nodes - {f}, depth, root, x)
  {
    hide Counts;
    var es := nodes[x].entries;
    assert DirOk(nodes, depth, root, x);
    forall k | 2 <= k < |es| ensures es[k].ino != f && ChildOk(nodes - {f}, depth, root, x, es[k]) {
      assert ChildOk(nodes, depth, root, x, es[k]);
      Unnamed(nodes, n, x, k);
    }
    assert ParentOk(nodes - {f}, depth, root, x);
  }

  // ------------------------------------------------------------------- mkdir and rmdir

  function MadeDir(nodes: Nodes, d: Ino, name: Name, c: Ino): Nodes
    requires IsLive(nodes, d)
  {
    nodes[c := Dir(2, [Dirent(c, DOT), Dirent(d, DOTDOT)])]
         [d := Dir(nodes[d].links + 1, nodes[d].entries + [Dirent(c, name)])]
  }

  lemma MadeCounts(nodes: Nodes, n: nat, d: Ino, name: Name, c: Ino)
    requires
      && Counts(nodes, n) && IsLive(nodes, d) && c !in nodes && c < n
      && forall x :: x in nodes ==> forall k :: 0 <= k < |EntriesOf(nodes, x)| ==> EntriesOf(nodes, x)[k].ino in nodes
    ensures Counts(MadeDir(nodes, d, name, c), n)
  {
    hide Links, Named, Inos;
    var nodes' := MadeDir(nodes, d, name, c);
    var nodes1 := nodes[c := nodes'[c]];
    forall i | i in nodes' ensures nodes'[i].links == Links(nodes', Inos(n), n, i) {
      LinksChange(nodes, nodes1, Inos(n), n, i, c);
      LinksChange(nodes1, nodes', Inos(n), n, i, d);
      NamedAppend(nodes[d].entries, Dirent(c, name), i);
      TwoEntries(c, d, i);
      if i == c {
        NeverNamed(nodes, n, Inos(n), c);
      }
    }
  }

  lemma NamedNone(i: Ino)
    ensures Named([], i) == 0
  {
  }

  lemma MadeOnly(nodes: Nodes, d: Ino, name: Name, c: Ino)
    requires IsLive(nodes, d) && c !in nodes
    ensures OnlyDirs(nodes, MadeDir(nodes, d, name, c), d, c)
    ensures EntriesOf(MadeDir(nodes, d, name, c), d) == nodes[d].entries + [Dirent(c, name)]
  {
  }

  lemma TwoEntries(c: Ino, d: Ino, i: Ino)
    ensures Named([Dirent(c, DOT), Dirent(d, DOTDOT)], i) == (if c == i then 1 else 0) + (if d == i then 1 else 0)
    ensures Named([], i) == 0
  {
    NamedNone(i);
    hide Named;
    NamedAppend([Dirent(c, DOT)], Dirent(d, DOTDOT), i);
    NamedAppend([], Dirent(c, DOT), i);
    assert [] + [Dirent(c, DOT)] == [Dirent(c, DOT)]
           && [Dirent(c, DOT)] + [Dirent(d, DOTDOT)] == [Dirent(c, DOT), Dirent(d, DOTDOT)];
  }

  lemma {:induction false} NeverNamed(nodes: Nodes, n: nat, dirs: set<Ino>, c: Ino)
    requires
      && c !in nodes
      && forall x :: x in nodes ==> forall k :: 0 <= k < |EntriesOf(nodes, x)| ==> EntriesOf(nodes, x)[k].ino in nodes
    ensures Links(nodes, dirs, n, c) == 0
  {
    if n > 0 {
      NeverNamed(nodes, n - 1, dirs, c);
      NamedPositive(EntriesOf(nodes, n - 1), c);
    }
  }

  lemma EntriesKnown(nodes: Nodes, depth: Depths, root: Ino)
    requires Tree(nodes, depth, root)
    ensures forall x ::
      x in nodes ==> forall k :: 0 <= k < |EntriesOf(nodes, x)| ==> EntriesOf(nodes, x)[k].ino in nodes
  {
    forall x | x in nodes ensures forall k :: 0 <= k < |EntriesOf(nodes, x)| ==> EntriesOf(nodes, x)[k].ino in nodes {
      if EntriesOf(nodes, x) != [] {
        assert DirOk(nodes, depth, root, x);
        forall k | 0 <= k < |EntriesOf(nodes, x)| ensures EntriesOf(nodes, x)[k].ino in nodes {
          assert k >= 2 ==> ChildOk(nodes, depth, root, x, nodes[x].entries[k]);
        }
      }
    }
  }

  lemma MadeTree(nodes: Nodes, depth: Depths, root: Ino, d: Ino, name: Name, c: Ino)
    requires
      && Tree(nodes, depth, root) && IsLive(nodes, d) && c !in nodes && d in depth
      && Find(nodes[d].entries, name) == |nodes[d].entries|
    ensures Tree(MadeDir(nodes, d, name, c), depth[c := depth[d] + 1], root)
  {
    hide DirOk;
    var nodes', depth' := MadeDir(nodes, d, name, c), depth[c := depth[d] + 1];
    forall x | x in nodes' && nodes'[x].Dir? && nodes'[x].entries != []
      ensures IsLive(nodes', x) && DirOk(nodes', depth', root, x)
    {
      if x == c {
        MadeChild(nodes, depth, root, d, name, c);
      } else if x == d {
        MadeParent(nodes, depth, root, d, name, c);
      } else {
        MadeOther(nodes, depth, root, d, name, c, x);
      }
    }
  }

  lemma MadeChild(nodes: Nodes, depth: Depths, root: Ino, d: Ino, name: Name, c: Ino)
    requires Tree(nodes, depth, root) && IsLive(nodes, d) && c !in nodes && d in depth
    ensures IsLive(MadeDir(nodes, d, name, c), c)
    ensures DirOk(MadeDir(nodes, d, name, c), depth[c := depth[d] + 1], root, c)
  {
    var nodes' := MadeDir(nodes, d, name, c);
    assert nodes'[d].entries[|nodes[d].entries|].ino == c;
  }

  lemma MadeParent(nodes: Nodes, depth: Depths, root: Ino, d: Ino, name: Name, c: Ino)
    requires
      && Tree(nodes, depth, root) && IsLive(nodes, d) && c !in nodes && d in depth
      && Find(nodes[d].entries, name) == |nodes[d].entries|
    ensures IsLive(MadeDir(nodes, d, name, c), d)
    ensures DirOk(MadeDir(nodes, d, name, c), depth[c := depth[d] + 1], root, d)
  {
    var nodes', depth' := MadeDir(nodes, d, name, c), depth[c := depth[d] + 1];
    var es, es' := nodes[d].entries, nodes'[d].entries;
    assert DirOk(nodes, depth, root, d);
    forall k | 2 <= k < |es'| ensures ChildOk(nodes', depth', root, d, es'[k]) {
      if k < |es| {
        assert ChildOk(nodes, depth, root, d, es[k]);
        LiveStays(nodes, d, name, c, es[k].ino);
      }
    }
    LiveStays(nodes, d, name, c, es[1].ino);
    assert ParentOk(nodes', depth', root, d);
  }

  /** Making a directory leaves the first two entries of all others, and their children. */
  lemma LiveStays(nodes: Nodes, d: Ino, name: Name, c: Ino, x: Ino)
    requires IsLive(nodes, d) && c !in nodes && x in nodes
    ensures var nodes' := MadeDir(nodes, d, name, c);
      && nodes'[x].Dir? == nodes[x].Dir?
      && (IsLive(nodes, x) ==> IsLive(nodes', x) && nodes'[x].entries[1] == nodes[x].entries[1])
      && (IsLive(nodes, x) ==> forall y :: HasChild(nodes[x].entries, y) ==> HasChild(nodes'[x].entries, y))
  {
    var nodes' := MadeDir(nodes, d, name, c);
    if IsLive(nodes, x) {
      forall y | HasChild(nodes[x].entries, y) ensures HasChild(nodes'[x].entries, y) {
        var k :| 2 <= k < |nodes[x].entries| && nodes[x].entries[k].ino == y;
        assert nodes'[x].entries[k].ino == y;
      }
    }
  }

  lemma MadeOther(nodes: Nodes, depth: Depths, root: Ino, d: Ino, name: Name, c: Ino, x: Ino)
    requires
      && Tree(nodes, depth, root) && IsLive(nodes, d) && c !in nodes && d in depth && x in nodes && x != d
      && nodes[x].Dir? && nodes[x].entries != []
    ensures IsLive(MadeDir(nodes, d, name, c), x)
    ensures DirOk(MadeDir(nodes, d, name, c), depth[c := depth[d] + 1], root, x)
  {
    var nodes', depth' := MadeDir(nodes, d, name, c), depth[c := depth[d] + 1];
    var es := nodes[x].entries;
    assert DirOk(nodes, depth, root, x);
    forall k | 2 <= k < |es| ensures ChildOk(nodes', depth', root, x, es[k]) {
      assert ChildOk(nodes, depth, root, x, es[k]);
      LiveStays(nodes, d, name, c, es[k].ino);
    }
    LiveStays(nodes, d, name, c, es[1].ino);
    assert ParentOk(nodes', depth', root, x);
  }

  /** An empty directory `c`, named by entry `k` of `d`, is gone, with the ".." that named `d`. */
  function GoneDir(nodes: Nodes, d: Ino, k: nat): Nodes
    requires IsLive(nodes, d) && k < |nodes[d].entries| && nodes[d].links > 0
  {
    nodes[d := Dir(nodes[d].links - 1, Removed(nodes[d].entries, k))][nodes[d].entries[k].ino := Dir(0, [])]
  }

  ghost predicate EmptyChild(nodes: Nodes, d: Ino, k: nat) {
    && IsLive(nodes, d) && 2 <= k < |nodes[d].entries| && nodes[d].entries[k].ino != d
    && IsLive(nodes, nodes[d].entries[k].ino) && |nodes[nodes[d].entries[k].ino].entries| == 2
  }

  /** No other entry than its name and its own "." names an empty directory. */
  lemma NamedOnce(nodes: Nodes, depth: Depths, root: Ino, d: Ino, k: nat, x: Ino)
    requires Tree(nodes, depth, root) && EmptyChild(nodes, d, k) && x in nodes && x != nodes[d].entries[k].ino && x != d
    ensures Named(EntriesOf(nodes, x), nodes[d].entries[k].ino) == 0
  {
    var c, es := nodes[d].entries[k].ino, EntriesOf(nodes, x);
    NamedPositive(es, c);
    if es != [] {
      assert DirOk(nodes, depth, root, x) && DirOk(nodes, depth, root, d);
      assert ChildOk(nodes, depth, root, d, nodes[d].entries[k]);
      forall j | 0 <= j < |es| ensures es[j].ino != c {
        assert j >= 2 ==> ChildOk(nodes, depth, root, x, es[j]);
        assert j == 1 ==> ParentOk(nodes, depth, root, x);
      }
    }
  }

  lemma NamedOnceInParent(nodes: Nodes, depth: Depths, root: Ino, d: Ino, k: nat)
    requires Tree(nodes, depth, root) && EmptyChild(nodes, d, k)
    ensures Named(Removed(nodes[d].entries, k), nodes[d].entries[k].ino) == 0
  {
    var c, es := nodes[d].entries[k].ino, nodes[d].entries;
    var r := Removed(es, k);
    NamedPositive(r, c);
    assert DirOk(nodes, depth, root, d) && ParentOk(nodes, depth, root, d);
    assert ChildOk(nodes, depth, root, d, es[k]);
    forall j | 0 <= j < |r| ensures r[j].ino != c {
      RemovedAt(es, k, j);
    }
  }

  /** So an empty directory has exactly two links, as `s5fs_rmdir` asserts. */
  lemma TwoLinks(nodes: Nodes, depth: Depths, root: Ino, n: nat, d: Ino, k: nat)
    requires Tree(nodes, depth, root) && Counts(nodes, n) && EmptyChild(nodes, d, k)
    ensures
      && nodes[nodes[d].entries[k].ino].links == 2 && nodes[nodes[d].entries[k].ino].entries[1].ino == d
      && nodes[d].links > 0
    ensures nodes[d].entries[k].ino != root
  {
    hide Links, Named, Inos, Removed;
    var c := nodes[d].entries[k].ino;
    assert DirOk(nodes, depth, root, d) && DirOk(nodes, depth, root, c);
    assert ChildOk(nodes, depth, root, d, nodes[d].entries[k]);
    Unnamed(nodes, n, d, k);
    Unnamed(nodes, n, d, 0);
    var nodes1 := Unlinked(nodes, d, k);
    UnlinkedCounts(nodes, n, d, k);
    forall x: Ino | x < n && x != c ensures Named(EntriesOf(nodes1, x), c) == 0 {
      if x == d {
        NamedOnceInParent(nodes, depth, root, d, k);
      } else if x in nodes {
        NamedOnce(nodes, depth, root, d, k, x);
      } else {
        TwoEntries(c, d, c);
      }
    }
    LinksOnly(nodes1, Inos(n), n, c, c);
    TwoEntries(c, d, c);
    assert nodes1[c].entries == [Dirent(c, DOT), Dirent(d, DOTDOT)];
  }

  lemma GoneCounts(nodes: Nodes, depth: Depths, root: Ino, n: nat, d: Ino, k: nat)
    requires Tree(nodes, depth, root) && Counts(nodes, n) && EmptyChild(nodes, d, k) && nodes[d].links > 0
    requires nodes[nodes[d].entries[k].ino].links == 2 && nodes[nodes[d].entries[k].ino].entries[1].ino == d
    ensures Counts(GoneDir(nodes, d, k), n)
  {
    hide Links, Named, Inos, Removed, Tree;
    var c, nodes' := nodes[d].entries[k].ino, GoneDir(nodes, d, k);
    EmptyEntries(nodes, depth, root, c);
    forall i | i in nodes' ensures nodes'[i].links == Links(nodes', Inos(n), n, i) {
      GoneCount(nodes, n, d, k, i);
    }
  }

  lemma EmptyEntries(nodes: Nodes, depth: Depths, root: Ino, c: Ino)
    requires Tree(nodes, depth, root) && IsLive(nodes, c) && |nodes[c].entries| == 2
    ensures nodes[c].entries == [Dirent(c, DOT), Dirent(nodes[c].entries[1].ino, DOTDOT)]
  {
    assert DirOk(nodes, depth, root, c);
  }

  lemma GoneCount(nodes: Nodes, n: nat, d: Ino, k: nat, i: Ino)
    requires EmptyChild(nodes, d, k) && nodes[d].links > 0 && d < n && nodes[d].entries[k].ino < n
    requires var c := nodes[d].entries[k].ino; nodes[c].entries == [Dirent(c, DOT), Dirent(d, DOTDOT)]
    ensures var c := nodes[d].entries[k].ino;
      Links(GoneDir(nodes, d, k), Inos(n), n, i)
        == Links(nodes, Inos(n), n, i) - (if i == c then 2 else 0) - (if i == d then 1 else 0)
  {
    hide Links, Named, Removed;
    var c, nodes' := nodes[d].entries[k].ino, GoneDir(nodes, d, k);
    var nodes1 := nodes[c := Dir(0, [])];
    LinksChange(nodes, nodes1, Inos(n), n, i, c);
    LinksChange(nodes1, nodes', Inos(n), n, i, d);
    RemovedCount(nodes[d].entries, k, i);
    TwoEntries(c, d, i);
  }

  lemma GoneTree(nodes: Nodes, depth: Depths, root: Ino, d: Ino, k: nat)
    requires Tree(nodes, depth, root) && EmptyChild(nodes, d, k) && nodes[d].links > 0
    requires nodes[d].entries[k].ino != root
    ensures Tree(GoneDir(nodes, d, k), depth, root)
  {
    hide DirOk, Removed;
    RemovedSize(nodes[d].entries, k);
    var nodes' := GoneDir(nodes, d, k);
    forall x | x in nodes' && nodes'[x].Dir? && nodes'[x].entries != []
      ensures IsLive(nodes', x) && DirOk(nodes', depth, root, x)
    {
      if x == d {
        GoneParent(nodes, depth, root, d, k);
      } else {
        GoneOther(nodes, depth, root, d, k, x);
      }
    }
  }

  /** What stays live: every directory but the removed one, with its first two entries and its other children. */
  lemma GoneStays(nodes: Nodes, depth: Depths, root: Ino, d: Ino, k: nat, x: Ino)
    requires EmptyChild(nodes, d, k) && nodes[d].links > 0 && x in nodes && x != nodes[d].entries[k].ino
    ensures var nodes' := GoneDir(nodes, d, k);
      && nodes'[x].Dir? == nodes[x].Dir?
      && (IsLive(nodes, x) ==> IsLive(nodes', x) && nodes'[x].entries[1] == nodes[x].entries[1])
      && (IsLive(nodes, x) ==> forall y :: y != nodes[d].entries[k].ino && HasChild(nodes[x].entries, y) ==>
           HasChild(nodes'[x].entries, y))
  {
    hide Removed;
    var nodes', c := GoneDir(nodes, d, k), nodes[d].entries[k].ino;
    var n := |nodes[d].entries| - 1;
    RemovedSize(nodes[d].entries, k);
    RemovedAt(nodes[d].entries, k, 1);
    if IsLive(nodes, x) {
      forall y | y != c && HasChild(nodes[x].entries, y) ensures HasChild(nodes'[x].entries, y) {
        var j :| 2 <= j < |nodes[x].entries| && nodes[x].entries[j].ino == y;
        if x == d {
          RemovedAt(nodes[d].entries, k, if j == n then k else j);
          assert nodes'[d].entries[if j == n then k else j].ino == y;
        } else {
          assert nodes'[x].entries[j].ino == y;
        }
      }
    }
  }

  lemma GoneParent(nodes: Nodes, depth: Depths, root: Ino, d: Ino, k: nat)
    requires Tree(nodes, depth, root) && EmptyChild(nodes, d, k) && nodes[d].links > 0
    ensures IsLive(GoneDir(nodes, d, k), d) && DirOk(GoneDir(nodes, d, k), depth, root, d)
  {
    var nodes', c := GoneDir(nodes, d, k), nodes[d].entries[k].ino;
    var es, r, n := nodes[d].entries, Removed(nodes[d].entries, k), |nodes[d].entries| - 1;
    assert DirOk(nodes, depth, root, d) && ParentOk(nodes, depth, root, d) && ChildOk(nodes, depth, root, d, es[k]);
    RemovedDistinct(es, k);
    RemovedAt(es, k, 0);
    RemovedAt(es, k, 1);
    forall j | 2 <= j < |r| ensures ChildOk(nodes', depth, root, d, r[j]) {
      RemovedAt(es, k, j);
      var i := if j == k then n else j;
      assert ChildOk(nodes, depth, root, d, es[i]) && i != k;
      GoneStays(nodes, depth, root, d, k, es[i].ino);
    }
    forall i, j | 2 <= i < j < |r| && r[i].ino == r[j].ino ensures r[i].ino in nodes' && nodes'[r[i].ino].File? {
      RemovedAt(es, k, i);
      RemovedAt(es, k, j);
    }
    GoneStays(nodes, depth, root, d, k, es[1].ino);
  }

  lemma GoneOther(nodes: Nodes, depth: Depths, root: Ino, d: Ino, k: nat, x: Ino)
    requires Tree(nodes, depth, root) && EmptyChild(nodes, d, k) && nodes[d].links > 0
    requires x in nodes && x != d && x != nodes[d].entries[k].ino && nodes[x].Dir? && nodes[x].entries != []
    ensures IsLive(GoneDir(nodes, d, k), x) && DirOk(GoneDir(nodes, d, k), depth, root, x)
  {
    hide Removed, Named;
    var nodes', c, es := GoneDir(nodes, d, k), nodes[d].entries[k].ino, nodes[x].entries;
    assert DirOk(nodes, depth, root, x) && ParentOk(nodes, depth, root, x);
    NamedOnce(nodes, depth, root, d, k, x);
    NamedPositive(es, c);
    forall j | 2 <= j < |es| ensures ChildOk(nodes', depth, root, x, es[j]) {
      assert ChildOk(nodes, depth, root, x, es[j]) && es[j].ino != c;
      GoneStays(nodes, depth, root, d, k, es[j].ino);
    }
    assert es[1].ino != c;
    GoneStays(nodes, depth, root, d, k, es[1].ino);
  }

  // ----------------------------------------------------------------- lengths and blocks

  /** The length covers the entries, or still the two that a removed directory had, and lies in its blocks. */
  predicate ExtentOk(es: seq<Dirent>, x: Extent) {
    && x.len == DIRENT_SIZE * (if es == [] then 2 else |es|)
    && x.len <= BLOCK_SIZE * x.blocks && x.blocks <= MAX_BLOCKS
  }

  ghost predicate Measured(nodes: Nodes, extents: Extents) {
    forall d :: d in nodes && nodes[d].Dir? ==> d in extents && ExtentOk(nodes[d].entries, extents[d])
  }

  /** `vn_len` and `s5_size` agree, as `s5_find_dirent` asserts, exactly in directories that are not removed. */
  lemma LengthsAgree(nodes: Nodes, extents: Extents, d: Ino)
    requires Measured(nodes, extents) && d in nodes && nodes[d].Dir?
    ensures extents[d].len == DIRENT_SIZE * |nodes[d].entries| <==> nodes[d].entries != []
  {
  }

  /** One more entry at the end: only behind the last block is a new one needed. */
  function AppendCode(x: Extent, space: bool): int {
    if x.len < BLOCK_SIZE * x.blocks then 0 else if x.blocks >= MAX_BLOCKS then -EFBIG else if space then 0 else -ENOSPC
  }

  function Longer(x: Extent): Extent {
    Extent(x.len + DIRENT_SIZE, if x.len < BLOCK_SIZE * x.blocks then x.blocks else x.blocks + 1)
  }

  lemma LongerOk(es: seq<Dirent>, e: Dirent, x: Extent, space: bool)
    requires ExtentOk(es, x) && es != [] && AppendCode(x, space) == 0
    ensures ExtentOk(es + [e], Longer(x))
  {
  }

  /** The place of a removed entry is free for the next one. */
  lemma ShorterOk(es: seq<Dirent>, k: nat, x: Extent, space: bool)
    requires ExtentOk(es, x) && |es| >= 2 && k < |es|
    ensures ExtentOk(Removed(es, k), x.(len := x.len - DIRENT_SIZE))
    ensures AppendCode(x.(len := x.len - DIRENT_SIZE), space) == 0
  {
  }

  lemma MeasuredStill(nodes: Nodes, extents: Extents, nodes': Nodes, extents': Extents, d: Ino)
    requires Measured(nodes, extents)
    requires forall x :: x in nodes' && nodes'[x].Dir? && x != d ==>
      x in nodes && EntriesOf(nodes', x) == EntriesOf(nodes, x) && nodes[x].Dir?
    requires d in extents' && (d in nodes' && nodes'[d].Dir? ==> ExtentOk(nodes'[d].entries, extents'[d]))
    requires forall x :: x in extents && x != d ==> x in extents' && extents'[x] == extents[x]
    ensures Measured(nodes', extents')
  {
    forall x | x in nodes' && nodes'[x].Dir? && x != d
      ensures x in extents' && ExtentOk(nodes'[x].entries, extents'[x])
    {
      assert EntriesOf(nodes', x) == EntriesOf(nodes, x);
    }
  }

  lemma LiveExtent(nodes: Nodes, extents: Extents, d: Ino)
    requires Measured(nodes, extents) && IsLive(nodes, d)
    ensures d in extents && extents[d].len == DIRENT_SIZE * |nodes[d].entries| && extents[d].len >= 2 * DIRENT_SIZE
  {
  }

  lemma MeasuredLinked(nodes: Nodes, extents: Extents, d: Ino, name: Name, f: Ino, space: bool)
    requires
      && Measured(nodes, extents) && IsLive(nodes, d) && f in nodes && f != d && d in extents
      && AppendCode(extents[d], space) == 0
    ensures Measured(Linked(nodes, d, name, f), extents[d := Longer(extents[d])])
  {
    LongerOk(nodes[d].entries, Dirent(f, name), extents[d], space);
    MeasuredStill(nodes, extents, Linked(nodes, d, name, f), extents[d := Longer(extents[d])], d);
  }

  lemma MeasuredUnlinked(nodes: Nodes, extents: Extents, d: Ino, k: nat, space: bool)
    requires
      && Measured(nodes, extents) && IsLive(nodes, d) && 2 <= k < |nodes[d].entries| && d in extents
      && extents[d].len >= DIRENT_SIZE
    requires var f := nodes[d].entries[k].ino; f in nodes && f != d && nodes[f].links > 0
    ensures Measured(Unlinked(nodes, d, k), extents[d := extents[d].(len := extents[d].len - DIRENT_SIZE)])
    ensures AppendCode(extents[d].(len := extents[d].len - DIRENT_SIZE), space) == 0
  {
    hide Removed;
    ShorterOk(nodes[d].entries, k, extents[d], space);
    MeasuredStill(nodes, extents, Unlinked(nodes, d, k), extents[d := extents[d].(len := extents[d].len - DIRENT_SIZE)],
                  d);
  }

  lemma AppendAnyway(x: Extent, space: bool)
    requires AppendCode(x, false) == 0
    ensures AppendCode(x, space) == 0
  {
  }

  lemma MeasuredMade(nodes: Nodes, extents: Extents, d: Ino, name: Name, c: Ino, space: bool)
    requires Measured(nodes, extents) && IsLive(nodes, d) && c !in nodes && d in extents
    requires AppendCode(extents[d], space) == 0
    ensures Measured(MadeDir(nodes, d, name, c), extents[c := Extent(2 * DIRENT_SIZE, 1)][d := Longer(extents[d])])
  {
    LongerOk(nodes[d].entries, Dirent(c, name), extents[d], space);
  }

  lemma MeasuredMore(nodes: Nodes, extents: Extents, extents': Extents)
    requires Measured(nodes, extents)
    requires forall d :: d in nodes && d in extents ==> d in extents' && extents'[d] == extents[d]
    ensures Measured(nodes, extents')
  {
  }

  lemma MadeEntries(nodes: Nodes, d: Ino, name: Name, c: Ino)
    requires IsLive(nodes, d) && c !in nodes
    ensures var nodes' := MadeDir(nodes, d, name, c);
      IsLive(nodes', c) && |nodes'[c].entries| == 2 && IsLive(nodes', d) && c != d
  {
  }

  lemma MeasuredGone(nodes: Nodes, extents: Extents, d: Ino, k: nat)
    requires
      && Measured(nodes, extents) && EmptyChild(nodes, d, k) && nodes[d].links > 0 && d in extents
      && extents[d].len >= DIRENT_SIZE
    ensures Measured(GoneDir(nodes, d, k), extents[d := extents[d].(len := extents[d].len - DIRENT_SIZE)])
  {
    hide Removed;
    ShorterOk(nodes[d].entries, k, extents[d], false);
  }

  /** The entries found for a name are those of the directory's map. */
  function EnterCode(names: map<Name, Ino>, x: Extent, name: Name, space: bool): int {
    if name in names then -EEXIST else AppendCode(x, space)
  }

  // ----------------------------------------------------------------------- operations

  predicate ProperName(name: Name) {
    0 < |name| < NAME_LEN && name != DOT && name != DOTDOT
  }

  /** No directory but `d` changes its entries. */
  ghost predicate OnlyDir(nodes: Nodes, nodes': Nodes, d: Ino) {
    forall x :: x != d ==> EntriesOf(nodes', x) == EntriesOf(nodes, x)
  }

  ghost predicate OnlyDirs(nodes: Nodes, nodes': Nodes, d: Ino, d': Ino) {
    forall x :: x != d && x != d' ==> EntriesOf(nodes', x) == EntriesOf(nodes, x)
  }

  ghost predicate SameNode(nodes: Nodes, nodes': Nodes, f: Ino) {
    f in nodes && f in nodes' && nodes'[f] == nodes[f]
  }

  lemma StillLive(nodes: Nodes, nodes': Nodes, d: Ino, x: Ino)
    requires OnlyDir(nodes, nodes', d) && IsLive(nodes', d) && IsLive(nodes, x)
    ensures IsLive(nodes', x) && (x != d ==> nodes'[x].entries == nodes[x].entries)
  {
    assert x != d ==> EntriesOf(nodes', x) == EntriesOf(nodes, x);
  }

  /** A fresh file inode, held by its creator. */
  lemma NewFile(nodes: Nodes, depth: Depths, root: Ino, held: set<Ino>, n: nat, c: Ino)
    requires Inv(nodes, depth, root, held, n) && c !in nodes && c < n
    ensures Inv(nodes[c := File(0)], depth, root, held + {c}, n)
  {
    hide Links, Named, Inos;
    var nodes' := nodes[c := File(0)];
    EntriesKnown(nodes, depth, root);
    forall i | i in nodes' ensures nodes'[i].links == Links(nodes', Inos(n), n, i) {
      LinksChange(nodes, nodes', Inos(n), n, i, c);
      if i == c {
        NeverNamed(nodes, n, Inos(n), c);
      }
    }
    forall x | x in nodes' && nodes'[x].Dir? && nodes'[x].entries != []
      ensures IsLive(nodes', x) && DirOk(nodes', depth, root, x)
    {
      NewFileDir(nodes, depth, root, c, x);
    }
  }

  lemma NewFileDir(nodes: Nodes, depth: Depths, root: Ino, c: Ino, x: Ino)
    requires Tree(nodes, depth, root) && c !in nodes && x in nodes && nodes[x].Dir? && nodes[x].entries != []
    ensures IsLive(nodes[c := File(0)], x) && DirOk(nodes[c := File(0)], depth, root, x)
  {
    var nodes', es := nodes[c := File(0)], nodes[x].entries;
    assert DirOk(nodes, depth, root, x) && ParentOk(nodes, depth, root, x);
    forall k | 2 <= k < |es| ensures ChildOk(nodes', depth, root, x, es[k]) {
      assert ChildOk(nodes, depth, root, x, es[k]);
    }
  }

  lemma DirFacts(nodes: Nodes, depth: Depths, root: Ino, d: Ino)
    requires Tree(nodes, depth, root) && IsLive(nodes, d)
    ensures
      && DistinctNames(nodes[d].entries) && nodes[d].entries[0] == Dirent(d, DOT) && nodes[d].entries[1].name == DOTDOT
      && d in depth
    ensures forall k :: 2 <= k < |nodes[d].entries| ==> nodes[d].entries[k].ino in nodes && nodes[d].entries[k].ino != d
    ensures forall k ::
      2 <= k < |nodes[d].entries| && nodes[nodes[d].entries[k].ino].Dir? ==> IsLive(nodes, nodes[d].entries[k].ino)
  {
    assert DirOk(nodes, depth, root, d) && ParentOk(nodes, depth, root, d);
    forall k | 2 <= k < |nodes[d].entries| ensures ChildOk(nodes, depth, root, d, nodes[d].entries[k]) {
    }
  }

  /** A proper name is not found among the first two entries. */
  lemma ProperPlace(nodes: Nodes, depth: Depths, root: Ino, n: nat, d: Ino, name: Name)
    requires Tree(nodes, depth, root) && Counts(nodes, n) && IsLive(nodes, d) && ProperName(name)
    ensures var k := Find(nodes[d].entries, name);
      k < |nodes[d].entries| ==> k >= 2 && nodes[nodes[d].entries[k].ino].links > 0
  {
    DirFacts(nodes, depth, root, d);
    var k := Find(nodes[d].entries, name);
    if k < |nodes[d].entries| {
      Unnamed(nodes, n, d, k);
    }
  }

  /** The number found for a name is not 0, which `s5_link` would not take for an inode. */
  predicate NotRoot(es: seq<Dirent>, name: Name) {
    Find(es, name) < |es| ==> es[Find(es, name)].ino != 0
  }

  lemma FoundNotRoot(nodes: Nodes, depth: Depths, n: nat, d: Ino, name: Name)
    requires Tree(nodes, depth, 0) && Counts(nodes, n) && IsLive(nodes, d) && ProperName(name)
    ensures NotRoot(nodes[d].entries, name)
  {
    ProperPlace(nodes, depth, 0, n, d, name);
    var k := Find(nodes[d].entries, name);
    if k < |nodes[d].entries| {
      assert DirOk(nodes, depth, 0, d);
      assert ChildOk(nodes, depth, 0, d, nodes[d].entries[k]);
    }
  }

  /** What renaming does to the names of the two directories, which may be the same. */
  ghost predicate RenamedTo(from: map<Name, Ino>, to: map<Name, Ino>, from': map<Name, Ino>, to': map<Name, Ino>,
                            same: bool, name: Name, name': Name)
    requires name in from
  {
    && (same ==> from' == from[name' := from[name]] - {name})
    && (!same ==> from' == from - {name} && to' == to[name' := from[name]])
  }

  lemma AppendedNames(es: seq<Dirent>, e: Dirent)
    ensures Names(es + [e]) == Names(es)[e.name := e.ino]
  {
    assert (es + [e])[..|es|] == es;
  }

  lemma TwoNames(i: Ino)
    ensures Names([Dirent(i, DOT), Dirent(i, DOTDOT)]) == map[DOT := i, DOTDOT := i]
  {
    AppendedNames([Dirent(i, DOT)], Dirent(i, DOTDOT));
    AppendedNames([], Dirent(i, DOT));
    assert [] + [Dirent(i, DOT)] == [Dirent(i, DOT)]
           && [Dirent(i, DOT)] + [Dirent(i, DOTDOT)] == [Dirent(i, DOT), Dirent(i, DOTDOT)];
    assert map[][DOT := i] == map[DOT := i];
  }

  lemma ReadyToMake(nodes: Nodes, depth: Depths, held: set<Ino>, n: nat, d: Ino, name: Name)
    requires Inv(nodes, depth, 0, held, n) && IsLive(nodes, d) && ProperName(name)
    ensures d in depth && NotRoot(nodes[d].entries, name)
    ensures name in Names(nodes[d].entries) <==> Find(nodes[d].entries, name) < |nodes[d].entries|
  {
    hide Tree, Counts, Names;
    DirFacts(nodes, depth, 0, d);
    FoundNotRoot(nodes, depth, n, d, name);
    AbsentName(nodes, depth, 0, d, name);
  }

  lemma ReadyToRemove(nodes: Nodes, depth: Depths, held: set<Ino>, n: nat, d: Ino, name: Name)
    requires Inv(nodes, depth, 0, held, n) && IsLive(nodes, d) && ProperName(name) && name in Names(nodes[d].entries)
    ensures var k := Find(nodes[d].entries, name);
      && 2 <= k < |nodes[d].entries| && nodes[d].entries[k].name == name
      && nodes[d].entries[k].ino == Names(nodes[d].entries)[name]
      && nodes[d].entries[k].ino in nodes && nodes[nodes[d].entries[k].ino].links > 0
  {
    hide Tree, Counts, Names;
    AbsentName(nodes, depth, 0, d, name);
    ProperPlace(nodes, depth, 0, n, d, name);
    DirFacts(nodes, depth, 0, d);
    FoundName(nodes[d].entries, Find(nodes[d].entries, name));
  }

  lemma MadeInv(nodes: Nodes, depth: Depths, root: Ino, held: set<Ino>, n: nat, d: Ino, name: Name, c: Ino)
    requires Inv(nodes, depth, root, held, n) && IsLive(nodes, d) && c !in nodes && c < n && d in depth
    requires Find(nodes[d].entries, name) == |nodes[d].entries|
    ensures Inv(MadeDir(nodes, d, name, c), depth[c := depth[d] + 1], root, held + {c}, n)
  {
    hide Tree, Counts;
    MadeTree(nodes, depth, root, d, name, c);
    EntriesKnown(nodes, depth, root);
    MadeCounts(nodes, n, d, name, c);
  }

  predicate Full(nodes: Nodes, n: nat) {
    forall i: Ino :: i < n ==> i in nodes
  }

  lemma MeasuredFile(nodes: Nodes, extents: Extents, c: Ino)
    requires Measured(nodes, extents)
    ensures Measured(nodes[c := File(0)], extents)
  {
  }

  /**
   * When renaming succeeds and how it fails: the new name must not belong to the file already, which
   * counts as an existing entry, nor to a directory; taking over another file's entry needs no space.
   */
  function RenameCode(nodes: Nodes, extents: Extents, d: Ino, name: Name, d': Ino, name': Name, space: bool): int {
    var from, to := Names(EntriesOf(nodes, d)), Names(EntriesOf(nodes, d'));
    if |name'| >= NAME_LEN then -ENAMETOOLONG
    else if !(d' in nodes && nodes[d'].Dir?) then -ENOTDIR
    else if name !in from then -ENOENT
    else if IsDir(nodes, from[name]) then -EISDIR
    else if name' !in to then (if d' in extents then AppendCode(extents[d'], space) else 0)
    else if to[name'] == from[name] then -EEXIST
    else if IsDir(nodes, to[name']) then -EISDIR
    else 0
  }

  predicate IsDir(nodes: Nodes, i: Ino) {
    i in nodes && nodes[i].Dir?
  }

  /** The code of a rename, told from what is there. */
  lemma RenameMeans(nodes: Nodes, extents: Extents, d: Ino, name: Name, d': Ino, name': Name, space: bool)
    requires IsDir(nodes, d') ==> d' in extents
    ensures var r := RenameCode(nodes, extents, d, name, d', name', space);
      var from, to := Names(EntriesOf(nodes, d)), Names(EntriesOf(nodes, d'));
      && (|name'| >= NAME_LEN ==> r == -ENAMETOOLONG)
      && (|name'| < NAME_LEN && !IsDir(nodes, d') ==> r == -ENOTDIR)
      && (|name'| < NAME_LEN && IsDir(nodes, d') ==>
            && (name !in from ==> r == -ENOENT)
            && (name in from && IsDir(nodes, from[name]) ==> r == -EISDIR)
            && (NamesFile(nodes, from, name) ==>
                  r == if name' !in to then AppendCode(extents[d'], space)
                       else if to[name'] == from[name] then -EEXIST
                       else if IsDir(nodes, to[name']) then -EISDIR
                       else 0))
    ensures forall x :: AppendCode(x, space) in {0, -EFBIG, -ENOSPC}
  {
  }

  /** A file can be found under a name. */
  predicate NamesFile(nodes: Nodes, names: map<Name, Ino>, name: Name) {
    name in names && !IsDir(nodes, names[name])
  }

  class FileSystem {
    const n: nat
    const root: Ino := 0
    var nodes: Nodes
    var extents: Extents
    var held: set<Ino>
    ghost var depth: Depths

    ghost predicate Valid()
      reads this
    {
      Inv(nodes, depth, root, held, n) && Measured(nodes, extents)
    }

    ghost function DirNames(d: Ino): map<Name, Ino>
      reads this
    {
      Names(EntriesOf(nodes, d))
    }

    /** A freshly formatted file system: the root directory alone. */
    constructor (n: nat)
      requires n > 0
      ensures Valid() && this.n == n && nodes.Keys == {root} && held == {} && IsLive(nodes, root)
      ensures DirNames(root) == map[DOT := root, DOTDOT := root] && extents == map[root := Extent(2 * DIRENT_SIZE, 1)]
    {
      this.n := n;
      nodes := map[root := Dir(2, [Dirent(root, DOT), Dirent(root, DOTDOT)])];
      extents := map[root := Extent(2 * DIRENT_SIZE, 1)];
      held := {};
      depth := map[root := 0];
      new;
      TwoEntries(root, root, root);
      forall x: Ino | x < n && x != root ensures Named(EntriesOf(nodes, x), root) == 0 {
        TwoEntries(root, root, root);
      }
      LinksOnly(nodes, Inos(n), n, root, root);
      TwoNames(root);
    }

    /** `s5_find_dirent`. */
    method FindDirent(d: Ino, name: Name) returns (k: nat)
      requires IsLive(nodes, d) && d in extents && extents[d].len == DIRENT_SIZE * |nodes[d].entries|
      ensures k == Find(nodes[d].entries, name)
    {
      var es := nodes[d].entries;
      k := 0;
      while k < |es| && es[k].name != name
        invariant 0 <= k <= |es| && Find(es, name) == k + Find(es[k..], name)
      {
        assert es[k..][1..] == es[k + 1..];
        k := k + 1;
      }
    }

    /** `s5_remove_dirent`. */
    method RemoveDirent(d: Ino, k: nat)
      requires d in nodes && nodes[d].Dir? && k < |nodes[d].entries| && d in extents && extents[d].len >= DIRENT_SIZE
      requires var f := nodes[d].entries[k].ino; f in nodes && f != d && nodes[f].links > 0
      modifies this`nodes, this`extents
      ensures nodes == Unlinked(old(nodes), d, k)
      ensures extents == old(extents)[d := old(extents)[d].(len := old(extents)[d].len - DIRENT_SIZE)]
    {
      var es := nodes[d].entries;
      var f, last := es[k].ino, |es| - 1;
      if k < last {
        es := es[k := es[last]];
      }
      es := es[..last];
      assert es == Removed(nodes[d].entries, k);
      extents := extents[d := extents[d].(len := extents[d].len - DIRENT_SIZE)];
      nodes := nodes[d := nodes[d].(entries := es)];
      nodes := nodes[f := nodes[f].(links := nodes[f].links - 1)];
    }

    /** The write of an entry at the end of a directory; `space` says whether a new block can be had. */
    method Append(d: Ino, e: Dirent, space: bool) returns (ret: int)
      requires IsLive(nodes, d) && d in extents
      modifies this`nodes, this`extents
      ensures ret == AppendCode(old(extents)[d], space)
      ensures ret != 0 ==> nodes == old(nodes) && extents == old(extents)
      ensures ret == 0 ==> nodes == old(nodes)[d := old(nodes)[d].(entries := old(nodes)[d].entries + [e])]
      ensures ret == 0 ==> extents == old(extents)[d := Longer(old(extents)[d])]
    {
      var x := extents[d];
      var blocks := x.blocks;
      if x.len >= BLOCK_SIZE * blocks {
        if blocks >= MAX_BLOCKS {
          return -EFBIG;
        }
        if !space {
          return -ENOSPC;
        }
        blocks := blocks + 1;
      }
      extents := extents[d := Extent(x.len + DIRENT_SIZE, blocks)];
      nodes := nodes[d := nodes[d].(entries := nodes[d].entries + [e])];
      ret := 0;
    }

    /** `s5_link`. */
    method LinkDirent(d: Ino, name: Name, f: Ino, space: bool) returns (ret: int)
      requires IsLive(nodes, d) && f in nodes && f != d && NotRoot(nodes[d].entries, name)
      requires d in extents && extents[d].len == DIRENT_SIZE * |nodes[d].entries|
      modifies this`nodes, this`extents
      ensures ret ==
        if Find(old(nodes)[d].entries, name) < |old(nodes)[d].entries| then -EEXIST
        else AppendCode(old(extents)[d], space)
      ensures ret == 0 ==>
        nodes == Linked(old(nodes), d, name, f) && extents == old(extents)[d := Longer(old(extents)[d])]
      ensures ret != 0 ==> nodes == old(nodes) && extents == old(extents)
    {
      var k := FindDirent(d, name);
      if k < |nodes[d].entries| {
        assert nodes[d].entries[k].ino > 0;
        return -EEXIST;
      }
      ret := Append(d, Dirent(f, name), space);
      if ret < 0 {
        return;
      }
      nodes := nodes[f := nodes[f].(links := nodes[f].links + 1)];
    }

    /** `vput` of an inode's last temporary reference: an unlinked inode that nobody holds is freed. */
    method Put(f: Ino)
      requires
        && Tree(nodes, depth, root) && Counts(nodes, n) && f in nodes
        && (nodes[f].Dir? && nodes[f].links == 0 ==> nodes[f].entries == [])
      requires (forall i :: i in nodes && nodes[i].links == 0 && i != f ==> i in held)
      requires forall i :: i in held ==> i in nodes
      requires Measured(nodes, extents)
      modifies this`nodes
      ensures Valid() && nodes == if old(nodes)[f].links == 0 && f !in held then old(nodes) - {f} else old(nodes)
    {
      hide Tree, Counts;
      if nodes[f].links == 0 && f !in held {
        Freed(nodes, depth, root, n, f);
        nodes := nodes - {f};
      }
    }

    /** The last reference from outside is dropped. */
    method Release(f: Ino)
      requires Valid() && f in held
      modifies this`nodes, this`held
      ensures Valid() && held == old(held) - {f}
      ensures nodes == if old(nodes)[f].links == 0 then old(nodes) - {f} else old(nodes)
    {
      NoLinksNoEntries(nodes, depth, root, n, f);
      held := held - {f};
      Put(f);
    }

    /** `s5fs_mknod`; on success the new inode is held by the caller. */
    method Mknod(d: Ino, name: Name, space: bool) returns (ret: int, c: Ino)
      requires Valid() && IsLive(nodes, d) && ProperName(name)
      modifies this`nodes, this`extents, this`held
      ensures OnlyDir(old(nodes), nodes, d) && d in old(extents)
      ensures ret == if Full(old(nodes), n) then -ENOSPC else EnterCode(old(DirNames(d)), old(extents)[d], name, space)
      ensures ret == 0 ==> c !in old(nodes) && c in nodes && nodes[c] == File(1) && c in held
      ensures ret == 0 ==> name !in old(DirNames(d)) && DirNames(d) == old(DirNames(d))[name := c]
      ensures ret == 0 ==> extents == old(extents)[d := Longer(old(extents)[d])] && IsLive(nodes, d)
      ensures ret != 0 ==> nodes == old(nodes) && extents == old(extents) && held == old(held)
      ensures Valid()
    {
      hide Tree, Counts, Names, Links, Measured, Longer, AppendCode;
      LiveExtent(nodes, extents, d);
      c := 0;
      if i: Ino :| i < n && i !in nodes {
        c := i;
      } else {
        return -ENOSPC, c;
      }
      ghost var before := nodes;
      NewFile(nodes, depth, root, held, n, c);
      MeasuredFile(nodes, extents, c);
      nodes, held := nodes[c := File(0)], held + {c};
      ret := EnterFile(d, name, c, space);
      if ret != 0 {
        held := held - {c};
        Put(c);
        assert nodes == before;
      }
    }

    /** A name for a file, by `s5_link`. */
    method EnterFile(d: Ino, name: Name, f: Ino, space: bool) returns (ret: int)
      requires Valid() && IsLive(nodes, d) && ProperName(name) && f in nodes && nodes[f].File?
      modifies this`nodes, this`extents
      ensures OnlyDir(old(nodes), nodes, d) && d in old(extents)
      ensures ret == EnterCode(old(DirNames(d)), old(extents)[d], name, space)
      ensures ret == 0 ==> name !in old(DirNames(d)) && DirNames(d) == old(DirNames(d))[name := f]
      ensures ret == 0 ==>
        IsLive(nodes, d) && nodes.Keys == old(nodes).Keys && nodes[f] == File(old(nodes)[f].links + 1)
      ensures ret == 0 ==> extents == old(extents)[d := Longer(old(extents)[d])]
      ensures forall x :: x != d && x != f && x in old(nodes) ==> SameNode(old(nodes), nodes, x)
      ensures ret != 0 ==> nodes == old(nodes) && extents == old(extents)
      ensures Valid()
    {
      hide Tree, Counts, Names, Links, Measured, Longer, AppendCode;
      ghost var before, x := nodes, extents;
      LiveExtent(nodes, extents, d);
      FoundNotRoot(nodes, depth, n, d, name);
      AbsentName(nodes, depth, root, d, name);
      ret := LinkDirent(d, name, f, space);
      if ret == 0 {
        LinkedTree(before, depth, root, d, name, f);
        LinkedCounts(before, n, d, name, f);
        MeasuredLinked(before, x, d, name, f, space);
        AppendedNames(before[d].entries, Dirent(f, name));
      }
    }

    /** `s5fs_link`. */
    method Link(d: Ino, name: Name, f: Ino, space: bool) returns (ret: int)
      requires Valid() && IsLive(nodes, d) && ProperName(name) && f in nodes
      modifies this`nodes, this`extents
      ensures OnlyDir(old(nodes), nodes, d) && IsLive(nodes, d) && f in nodes && d in old(extents)
      ensures ret == if old(nodes)[f].Dir? then -EISDIR else EnterCode(old(DirNames(d)), old(extents)[d], name, space)
      ensures ret == 0 ==>
        && name !in old(DirNames(d)) && DirNames(d) == old(DirNames(d))[name := f]
        && nodes[f] == File(old(nodes)[f].links + 1)
      ensures forall x :: x != d && x != f && x in old(nodes) ==> SameNode(old(nodes), nodes, x)
      ensures ret != 0 ==> nodes == old(nodes) && extents == old(extents)
      ensures Valid()
    {
      hide Inv, Names, Measured, Longer, AppendCode;
      LiveExtent(nodes, extents, d);
      if nodes[f].Dir? {
        return -EISDIR;
      }
      ret := EnterFile(d, name, f, space);
    }

    /** `s5fs_unlink`; directories are kept out by the caller. */
    method Unlink(d: Ino, name: Name) returns (ret: int)
      requires Valid() && IsLive(nodes, d) && ProperName(name)
      requires name in DirNames(d) ==> DirNames(d)[name] in nodes && nodes[DirNames(d)[name]].File?
      modifies this`nodes, this`extents
      ensures Valid() && OnlyDir(old(nodes), nodes, d)
      ensures ret == if name in old(DirNames(d)) then 0 else -ENOENT
      ensures DirNames(d) == old(DirNames(d)) - {name}
    {
      hide Tree, Counts, Names, Links, Measured;
      LiveExtent(nodes, extents, d);
      var k := FindDirent(d, name);
      AbsentName(nodes, depth, root, d, name);
      ProperPlace(nodes, depth, root, n, d, name);
      DirFacts(nodes, depth, root, d);
      if k == |nodes[d].entries| {
        assert DirNames(d) - {name} == DirNames(d);
        return -ENOENT;
      }
      FoundName(nodes[d].entries, k);
      RemoveEntry(d, k);
      ret := 0;
    }

    /** Remove entry `k`, which names a file, and drop the reference to that file. */
    method RemoveEntry(d: Ino, k: nat)
      requires Valid() && IsLive(nodes, d) && 2 <= k < |nodes[d].entries|
      requires
        && nodes[d].entries[k].ino in nodes && nodes[nodes[d].entries[k].ino].File?
        && nodes[nodes[d].entries[k].ino].links > 0
      modifies this`nodes, this`extents
      ensures OnlyDir(old(nodes), nodes, d) && IsLive(nodes, d)
      ensures DistinctNames(old(nodes)[d].entries) && nodes[d].entries == Removed(old(nodes)[d].entries, k)
      ensures DirNames(d) == old(DirNames(d)) - {old(nodes)[d].entries[k].name}
      ensures var f := old(nodes)[d].entries[k].ino;
        && (f in nodes ==> nodes[f] == File(old(nodes)[f].links - 1))
        && (f !in nodes ==> old(nodes)[f].links == 1 && f !in held)
        && forall x :: x != f && x != d ==>
             (x in nodes <==> x in old(nodes)) && (x in nodes ==> nodes[x] == old(nodes)[x])
      ensures d in extents && AppendCode(extents[d], false) == 0
      ensures Valid()
    {
      hide Tree, Counts, Names, Links, Removed, Measured, AppendCode;
      ghost var before := nodes;
      var f := nodes[d].entries[k].ino;
      LiveExtent(nodes, extents, d);
      DirFacts(nodes, depth, root, d);
      RemovedSize(nodes[d].entries, k);
      UnlinkedTree(nodes, depth, root, d, k);
      UnlinkedCounts(nodes, n, d, k);
      MeasuredUnlinked(nodes, extents, d, k, false);
      RemovedNames(nodes[d].entries, k);
      RemoveDirent(d, k);
      Put(f);
    }

    /**
     * `s5fs_rename`: on success the file is under its new name, in place of whatever file was there,
     * and not under its old one, and its link count is what it was; on failure nothing has changed.
     */
    method Rename(d: Ino, name: Name, d': Ino, name': Name, space: bool) returns (ret: int)
      requires Valid() && IsLive(nodes, d) && ProperName(name) && d' in nodes && name' != DOT && name' != DOTDOT
      requires name' != ""
      requires nodes[d'].Dir? ==> IsLive(nodes, d')
      modifies this`nodes, this`extents, this`held
      ensures ret == RenameCode(old(nodes), old(extents), d, name, d', name', space)
      ensures IsDir(old(nodes), d') ==> d' in old(extents)
      ensures ret == 0 <==>
        && |name'| < NAME_LEN && IsDir(old(nodes), d') && NamesFile(old(nodes), old(DirNames(d)), name)
        && if name' !in old(DirNames(d')) then AppendCode(old(extents)[d'], space) == 0
           else NamesFile(old(nodes), old(DirNames(d')), name') && old(DirNames(d'))[name'] != old(DirNames(d))[name]
      ensures ret == -EEXIST <==>
        && |name'| < NAME_LEN && IsDir(old(nodes), d') && NamesFile(old(nodes), old(DirNames(d)), name)
        && name' in old(DirNames(d')) && old(DirNames(d'))[name'] == old(DirNames(d))[name]
      ensures ret == 0 ==>
        RenamedTo(old(DirNames(d)), old(DirNames(d')), DirNames(d), DirNames(d'), d == d', name, name')
      ensures ret == 0 ==> OnlyDirs(old(nodes), nodes, d, d')
      ensures ret == 0 ==> SameNode(old(nodes), nodes, old(DirNames(d))[name])
      ensures ret != 0 ==> nodes == old(nodes) && extents == old(extents)
      ensures held == old(held) && Valid()
    {
      hide Tree, Counts, Names, Links, RenamedTo, Measured, Longer, AppendCode, RenameCode, OnlyDirs;
      LiveExtent(nodes, extents, d);
      if nodes[d'].Dir? {
        LiveExtent(nodes, extents, d');
      }
      RenameMeans(nodes, extents, d, name, d', name', space);
      if |name'| >= NAME_LEN {
        return -ENAMETOOLONG;
      }
      if !nodes[d'].Dir? {
        return -ENOTDIR;
      }
      var k := FindDirent(d, name);
      AbsentName(nodes, depth, root, d, name);
      if k == |nodes[d].entries| {
        return -ENOENT;
      }
      FoundName(nodes[d].entries, k);
      ProperPlace(nodes, depth, root, n, d, name);
      DirFacts(nodes, depth, root, d);
      var f := nodes[d].entries[k].ino;
      if nodes[f].Dir? {
        return -EISDIR;
      }
      ret := Reenter(d, name, d', name', f, space);
    }

    /** What a rename does when the file is found. */
    method Reenter(d: Ino, name: Name, d': Ino, name': Name, f: Ino, space: bool) returns (ret: int)
      requires Valid() && IsLive(nodes, d) && IsLive(nodes, d') && ProperName(name) && ProperName(name')
      requires f in nodes && nodes[f].File? && name in DirNames(d) && DirNames(d)[name] == f
      modifies this`nodes, this`extents, this`held
      ensures d' in old(extents)
      ensures ret ==
        if name' !in old(DirNames(d')) then AppendCode(old(extents)[d'], space)
        else if old(DirNames(d'))[name'] == f then -EEXIST
        else if IsDir(old(nodes), old(DirNames(d'))[name']) then -EISDIR
        else 0
      ensures ret == 0 ==>
        RenamedTo(old(DirNames(d)), old(DirNames(d')), DirNames(d), DirNames(d'), d == d', name, name')
      ensures ret == 0 ==> OnlyDirs(old(nodes), nodes, d, d') && SameNode(old(nodes), nodes, f)
      ensures ret != 0 ==> nodes == old(nodes) && extents == old(extents)
      ensures held == old(held) && Valid()
    {
      hide Inv, Names, RenamedTo, Measured, Longer, AppendCode;
      LiveExtent(nodes, extents, d');
      var mine, other;
      ret, mine, other := MakeWay(d', name', f);
      if ret != 0 {
        return;
      }
      ghost var names, names' := DirNames(d), DirNames(d');
      StillLive(old(nodes), nodes, d', d);
      if name' in old(DirNames(d')) && old(DirNames(d'))[name'] != f {
        AppendAnyway(extents[d'], space);
      }
      ret := MoveName(d, name, d', name', f, space, mine, other);
      if ret == 0 {
        RenameDone(old(DirNames(d)), old(DirNames(d')), names, names', DirNames(d), DirNames(d'), d == d', name, name',
                   f);
      }
    }

    /** The reference to the file that was under the new name is dropped, unless somebody else has one. */
    method LetGo(mine: bool, f: Ino)
      requires Valid() && (mine ==> f in held && f in nodes && nodes[f].File?)
      modifies this`nodes, this`held
      ensures Valid() && held == if mine then old(held) - {f} else old(held)
      ensures !mine ==> nodes == old(nodes)
      ensures forall x :: EntriesOf(nodes, x) == EntriesOf(old(nodes), x)
      ensures forall x :: x != f && x in old(nodes) ==> SameNode(old(nodes), nodes, x)
    {
      hide Inv, Measured;
      if mine {
        Release(f);
      }
    }

    /** The second half: the file gets its new name, the file that was there is let go, and the old name goes. */
    method MoveName(d: Ino, name: Name, d': Ino, name': Name, f: Ino, space: bool, mine: bool, other: Ino)
      returns (ret: int)
      requires
        && Valid() && IsLive(nodes, d) && IsLive(nodes, d') && ProperName(name) && ProperName(name') && f in nodes
        && nodes[f].File?
      requires name in DirNames(d) && DirNames(d)[name] == f
      requires mine ==> other in held && other != f && other != d' && other in nodes && nodes[other].File?
      modifies this`nodes, this`extents, this`held
      ensures d' in old(extents) && ret == EnterCode(old(DirNames(d')), old(extents)[d'], name', space)
      ensures ret == 0 ==> name' !in old(DirNames(d'))
      ensures ret == 0 ==> OnlyDirs(old(nodes), nodes, d, d') && SameNode(old(nodes), nodes, f)
      ensures ret == 0 && d == d' ==> DirNames(d) == old(DirNames(d))[name' := f] - {name}
      ensures ret == 0 && d != d' ==>
        DirNames(d') == old(DirNames(d'))[name' := f] && DirNames(d) == old(DirNames(d)) - {name}
      ensures ret != 0 && !mine ==> nodes == old(nodes)
      ensures ret != 0 ==>
        extents == old(extents) && forall x :: x in old(nodes) && x != other ==> SameNode(old(nodes), nodes, x)
      ensures held == (if mine then old(held) - {other} else old(held)) && Valid()
    {
      hide Inv, Names, Measured, Longer, AppendCode;
      ghost var m0 := nodes;
      ReadyToRemove(nodes, depth, held, n, d, name);
      ret := Link(d', name', f, space);
      LetGo(mine, other);
      if ret != 0 {
        return;
      }
      StillLive(m0, nodes, d', d);
      DropName(d, name, f);
    }

    /** `s5_remove_dirent` of a file that keeps another name. */
    method DropName(d: Ino, name: Name, f: Ino)
      requires Valid() && IsLive(nodes, d) && ProperName(name) && name in DirNames(d) && DirNames(d)[name] == f
      requires f in nodes && nodes[f].File? && nodes[f].links > 1
      modifies this`nodes, this`extents
      ensures OnlyDir(old(nodes), nodes, d) && IsLive(nodes, d)
      ensures DirNames(d) == old(DirNames(d)) - {name} && f in nodes && nodes[f] == File(old(nodes)[f].links - 1)
      ensures Valid()
    {
      hide Inv, Names, Measured, Longer, AppendCode;
      LiveExtent(nodes, extents, d);
      var k := FindDirent(d, name);
      ReadyToRemove(nodes, depth, held, n, d, name);
      RemoveEntry(d, k);
    }

    /**
     * The first half of a rename: an entry for another file under the new name is removed.  That file is held
     * until the new link is made; `mine` says that nobody else holds it.
     */
    method MakeWay(d: Ino, name: Name, f: Ino) returns (ret: int, mine: bool, other: Ino)
      requires Valid() && IsLive(nodes, d) && ProperName(name) && f in nodes && nodes[f].File?
      modifies this`nodes, this`extents, this`held
      ensures OnlyDir(old(nodes), nodes, d) && IsLive(nodes, d) && SameNode(old(nodes), nodes, f)
      ensures name in old(DirNames(d)) ==> old(DirNames(d))[name] in old(nodes)
      ensures ret == if name in old(DirNames(d)) && old(nodes)[old(DirNames(d))[name]].Dir? then -EISDIR else 0
      ensures ret != 0 || name !in old(DirNames(d)) || old(DirNames(d))[name] == f ==>
        nodes == old(nodes) && extents == old(extents) && held == old(held) && !mine
      ensures ret == 0 ==>
        var was := old(DirNames(d));
        DirNames(d) == if name in was && was[name] == f then was else was - {name}
      ensures ret == 0 && name in old(DirNames(d)) && old(DirNames(d))[name] != f ==>
        d in extents && AppendCode(extents[d], false) == 0 && other == old(DirNames(d))[name]
      ensures mine ==> other !in old(held) && other != f && other != d && other in nodes && nodes[other].File?
      ensures held == if mine then old(held) + {other} else old(held)
      ensures Valid()
    {
      hide Tree, Counts, Names, Links, Measured, AppendCode;
      LiveExtent(nodes, extents, d);
      var k := FindDirent(d, name);
      AbsentName(nodes, depth, root, d, name);
      ProperPlace(nodes, depth, root, n, d, name);
      FoundNotRoot(nodes, depth, n, d, name);
      DirFacts(nodes, depth, root, d);
      ret, mine, other := 0, false, f;
      if k == |nodes[d].entries| {
        assert DirNames(d) - {name} == DirNames(d);
        return;
      }
      FoundName(nodes[d].entries, k);
      var f' := nodes[d].entries[k].ino;
      if f' > 0 && f' != f {
        if nodes[f'].Dir? {
          return -EISDIR, false, f;
        }
        mine, other := f' !in held, f';
        held := held + {f'};
        RemoveEntry(d, k);
      }
    }

    /** `s5fs_mkdir`; `room` and `space` say whether the new and the old directory can have a new block. */
    method Mkdir(d: Ino, name: Name, room: bool, space: bool) returns (ret: int, c: Ino)
      requires Valid() && IsLive(nodes, d) && ProperName(name)
      modifies this
      ensures d in old(extents)
      ensures ret
        == if Full(old(nodes), n) || !room then -ENOSPC else EnterCode(old(DirNames(d)), old(extents)[d], name, space)
      ensures ret != 0 ==> nodes == old(nodes) && held == old(held)
      ensures ret == 0 ==>
        && c !in old(nodes) && IsLive(nodes, c) && nodes[c].links == 2 && d in nodes
        && nodes[d].links == old(nodes)[d].links + 1
      ensures ret == 0 ==> c in held && c != d && IsLive(nodes, d) && |nodes[c].entries| == 2
      ensures ret == 0 ==> DirNames(d) == old(DirNames(d))[name := c] && name !in old(DirNames(d))
      ensures ret == 0 ==> OnlyDirs(old(nodes), nodes, d, c)
      ensures Valid()
    {
      hide Inv, Names, OnlyDirs, Find, EntriesOf, Measured, Longer, AppendCode;
      assert EntriesOf(nodes, d) == nodes[d].entries by {
        EntriesAre(nodes, d);
      }
      LiveExtent(nodes, extents, d);
      ReadyToMake(nodes, depth, held, n, d, name);
      c := 0;
      if i: Ino :| i < n && i !in nodes {
        c := i;
      } else {
        return -ENOSPC, c;
      }
      ret := MakeDir(d, name, c, room, space);
      if ret != 0 {
        return;
      }
      MadeInv(old(nodes), depth, root, held, n, d, name, c);
      MadeOnly(old(nodes), d, name, c);
      MeasuredMade(old(nodes), old(extents), d, name, c, space);
      held := held + {c};
      AppendedNames(old(nodes)[d].entries, Dirent(c, name));
      depth := depth[c := depth[d] + 1];
      MadeEntries(old(nodes), d, name, c);
    }

    /** The writes of `s5fs_mkdir`, undone when one fails. */
    method MakeDir(d: Ino, name: Name, c: Ino, room: bool, space: bool) returns (ret: int)
      requires IsLive(nodes, d) && c !in nodes && NotRoot(nodes[d].entries, name) && Measured(nodes, extents)
      requires d in extents && extents[d].len == DIRENT_SIZE * |nodes[d].entries|
      modifies this`nodes, this`extents
      ensures ret ==
        if !room then -ENOSPC
        else if Find(old(nodes)[d].entries, name) < |old(nodes)[d].entries| then -EEXIST
        else AppendCode(old(extents)[d], space)
      ensures ret != 0 ==> nodes == old(nodes) && Measured(nodes, extents)
      ensures ret == 0 ==> nodes == MadeDir(old(nodes), d, name, c)
      ensures ret == 0 ==> extents == old(extents)[c := Extent(2 * DIRENT_SIZE, 1)][d := Longer(old(extents)[d])]
    {
      hide Longer, AppendCode, Measured, Find;
      ghost var before := nodes;
      nodes := nodes[c := Dir(0, [])];
      if !room {
        nodes := nodes - {c};
        assert nodes == before;
        return -ENOSPC;
      }
      nodes := nodes[c := Dir(0, [Dirent(c, DOT), Dirent(d, DOTDOT)])];
      extents := extents[c := Extent(2 * DIRENT_SIZE, 1)];
      nodes := nodes[d := nodes[d].(links := nodes[d].links + 1)];
      ret := LinkDirent(d, name, c, space);
      if ret != 0 {
        nodes := nodes - {c};
        nodes := nodes[d := nodes[d].(links := nodes[d].links - 1)];
        assert nodes == before;
        MeasuredMore(nodes, old(extents), extents);
        return;
      }
      nodes := nodes[c := nodes[c].(links := nodes[c].links + 1)];
    }

    /** `s5fs_rmdir`: of a directory that is still held, only the inode's size becomes 0. */
    method Rmdir(d: Ino, name: Name) returns (ret: int)
      requires Valid() && IsLive(nodes, d) && ProperName(name)
      modifies this`nodes, this`extents
      ensures ret != 0 ==> nodes == old(nodes)
      ensures ret == -ENOENT <==> name !in old(DirNames(d))
      ensures name in old(DirNames(d)) ==> old(DirNames(d))[name] in old(nodes)
      ensures name in old(DirNames(d)) ==> (ret == -ENOTDIR <==> old(nodes)[old(DirNames(d))[name]].File?)
      ensures name in old(DirNames(d)) ==>
        var c := old(DirNames(d))[name];
        (ret == -ENOTEMPTY <==> old(nodes)[c].Dir? && |old(nodes)[c].entries| > 2)
      ensures ret in {0, -ENOENT, -ENOTDIR, -ENOTEMPTY}
      ensures ret == 0 ==>
        name in old(DirNames(d)) && DirNames(d) == old(DirNames(d)) - {name} && !IsLive(nodes, old(DirNames(d))[name])
      ensures ret == 0 ==>
        && d in nodes && nodes[d].links == old(nodes)[d].links - 1
        && OnlyDirs(old(nodes), nodes, d, old(DirNames(d))[name])
      ensures ret == 0 ==>
        var c := old(DirNames(d))[name]; if c in held then c in nodes && nodes[c] == Dir(0, []) else c !in nodes
      ensures Valid()
    {
      hide Tree, Counts, Names, Links, Removed, Measured, Find;
      LiveExtent(nodes, extents, d);
      var k := FindDirent(d, name);
      AbsentName(nodes, depth, root, d, name);
      ProperPlace(nodes, depth, root, n, d, name);
      DirFacts(nodes, depth, root, d);
      if k == |nodes[d].entries| {
        return -ENOENT;
      }
      FoundName(nodes[d].entries, k);
      var c := nodes[d].entries[k].ino;
      if !nodes[c].Dir? {
        return -ENOTDIR;
      }
      LiveExtent(nodes, extents, c);
      if extents[c].len > 2 * DIRENT_SIZE {
        return -ENOTEMPTY;
      }
      ghost var before := nodes;
      TwoLinks(nodes, depth, root, n, d, k);
      GoneTree(nodes, depth, root, d, k);
      GoneCounts(nodes, depth, root, n, d, k);
      MeasuredGone(nodes, extents, d, k);
      RemovedNames(nodes[d].entries, k);
      RemoveDirent(d, k);
      assert nodes[c].links == 1;
      nodes := nodes[c := Dir(nodes[c].links - 1, [])];
      nodes := nodes[d := nodes[d].(links := nodes[d].links - 1)];
      assert nodes == GoneDir(before, d, k);
      RemovedSize(before[d].entries, k);
      NoLinksNoEntries(nodes, depth, root, n, d);
      Put(c);
      ret := 0;
    }

    /**
     * `s5fs_lookup`, of any directory that somebody still holds: the assertion on its two lengths holds
     * if and only if the directory was not removed.
     */
    method Lookup(d: Ino, name: Name) returns (agree: bool, r: int)
      requires Valid() && d in nodes && nodes[d].Dir?
      ensures agree <==> nodes[d].links > 0
      ensures agree ==> r == if name in DirNames(d) then DirNames(d)[name] else -ENOENT
    {
      hide Tree, Counts, Names, Links;
      LengthsAgree(nodes, extents, d);
      NoLinksNoEntries(nodes, depth, root, n, d);
      if nodes[d].links > 0 {
        LinkedIsLive(nodes, depth, root, n, d);
      }
      agree := extents[d].len == DIRENT_SIZE * |nodes[d].entries|;
      r := -ENOENT;
      if agree {
        var k := FindDirent(d, name);
        AbsentName(nodes, depth, root, d, name);
        if k < |nodes[d].entries| {
          FoundName(nodes[d].entries, k);
          r := nodes[d].entries[k].ino;
        }
      }
    }

    /**
     * `calculate_refcounts`: count the entries of directory `d` and of all directories first met below it.
     * `done` are the directories counted before, `locked` those whose loops are still running; a child is
     * locked only when its count was 0, so never one of them.
     */
    method Calculate(counts: array<int>, d: Ino, ghost base: seq<int>, ghost done: set<Ino>, ghost locked: set<Ino>)
      returns (ghost done': set<Ino>)
      requires
        && Tree(nodes, depth, root) && Numbered(nodes, n) && counts.Length == n && IsLive(nodes, d) && d !in done
        && d in locked
      requires Tallied(nodes, counts[..], base, done) && Met(nodes, counts[..], done, locked)
      modifies counts
      ensures done + {d} <= done' && done' !! (locked - {d} - done)
      ensures Tallied(nodes, counts[..], base, done') && Met(nodes, counts[..], done', locked)
      ensures Zeros(counts[..]) <= old(Zeros(counts[..])) && forall i :: 0 <= i < n ==> counts[i] >= old(counts[i])
      decreases Zeros(counts[..])
    {
      hide Tree, Links, Named, Tallied, Met, Zeros;
      var es := nodes[d].entries;
      ghost var cur := done;
      var k := 0;
      TallyStart(nodes, counts[..], base, done);
      while k < |es|
        invariant 0 <= k <= |es| && done <= cur && d !in cur && cur !! (locked - done)
        invariant |base| == n && Tallied(nodes, counts[..], Plus(base, es[..k]), cur)
        invariant Met(nodes, counts[..], cur, locked)
        invariant Zeros(counts[..]) <= old(Zeros(counts[..])) && forall i :: 0 <= i < n ==> counts[i] >= old(counts[i])
      {
        var i := es[k].ino;
        ghost var before := counts[..];
        EntryInRange(nodes, depth, root, n, d, k);
        Bounded(nodes, before, Plus(base, es[..k]), cur);
        counts[i] := counts[i] + 1;
        TallyOne(nodes, before, counts[..], base, es, k, cur);
        ZerosUp(before, i, counts[i]);
        MetOne(nodes, before, counts[..], cur, locked, i);
        if counts[i] == 1 {
          FirstMet(nodes, before, counts[..], cur, locked, i);
          if nodes[i].Dir? {
            ghost var was := cur;
            cur := Calculate(counts, i, Plus(base, es[..k + 1]), cur, locked + {i});
            MetChild(nodes, counts[..], cur, locked, i);
          }
        }
        k := k + 1;
      }
      assert es[..k] == es;
      done' := cur + {d};
      EntryInRange(nodes, depth, root, n, d, 0);
      TallyEnd(nodes, counts[..], base, cur, d);
      MetEnd(nodes, counts[..], cur, locked, d);
    }

    /**
     * `s5fs_check_refcounts`, of any directory tree: it complains if and only if some inode that an entry
     * names has another link count than the number of its entries.  So it never does in a valid state.
     */
    method CheckRefcounts() returns (ret: int)
      requires Tree(nodes, depth, root) && Numbered(nodes, n)
      ensures ret == 0 || ret == -1
      ensures ret == 0
        <==> forall i :: i in nodes && Links(nodes, Inos(n), n, i) > 0 ==> nodes[i].links == Links(nodes, Inos(n), n, i)
      ensures Valid() ==> ret == 0
    {
      hide Tree, Links, Named, Tallied, Met, Zeros;
      RootInRange(nodes, depth, root, n);
      var counts := new int[n](_ => 0);
      counts[root] := counts[root] + 1;
      ghost var base := counts[..];
      CountsStart(nodes, base, n, root);
      ghost var done := Calculate(counts, root, base, {}, {root});
      ghost var all := counts[..];
      counts[root] := counts[root] - 1;
      assert counts[..][root := counts[root] + 1] == all;
      CountsEnd(nodes, depth, root, n, base, done, counts[..]);
      ret := 0;
      var i: nat := 0;
      while i < n
        invariant 0 <= i <= n && (ret == 0 || ret == -1)
        invariant ret == 0 <==> forall j: Ino :: j < i && counts[j] != 0 ==> j in nodes && counts[j] == nodes[j].links
      {
        if counts[i] != 0 {
          if counts[i] != nodes[i].links {
            ret := -1;
          }
        }
        i := i + 1;
      }
    }
  }

  /** Renaming a file onto a second name of its own fails, and changes nothing. */
  method RenameOntoItself(n: nat) returns (ret: int)
    requires n >= 2
    ensures ret == -EEXIST
  {
    hide Inv, Measured, RenamedTo, OnlyDirs;
    var fs := new FileSystem(n);
    assert 1 !in fs.nodes && 1 < n;
    var c, r;
    r, c := fs.Mknod(fs.root, "a", false);
    r := fs.Link(fs.root, "b", c, false);
    ret := fs.Rename(fs.root, "a", fs.root, "b", true);
  }

  /** A lookup in a directory that was removed while somebody held it meets the failing assertion. */
  method LookInRemoved(n: nat) returns (agree: bool)
    requires n >= 2
    ensures !agree
  {
    hide Inv, Measured, OnlyDirs;
    var fs := new FileSystem(n);
    assert 1 !in fs.nodes && 1 < n;
    var c, r;
    r, c := fs.Mkdir(fs.root, "a", true, true);
    r := fs.Rmdir(fs.root, "a");
    agree, r := fs.Lookup(c, "b");
  }

  lemma LinkedIsLive(nodes: Nodes, depth: Depths, root: Ino, n: nat, d: Ino)
    requires Tree(nodes, depth, root) && Counts(nodes, n) && d in nodes && nodes[d].Dir? && nodes[d].links > 0
    ensures IsLive(nodes, d)
  {
    var x, k := NamedSomewhere(nodes, Inos(n), n, d);
    assert IsLive(nodes, x) && DirOk(nodes, depth, root, x) && ParentOk(nodes, depth, root, x);
    assert k >= 2 ==> ChildOk(nodes, depth, root, x, nodes[x].entries[k]);
  }

  lemma {:induction false} NamedSomewhere(nodes: Nodes, dirs: set<Ino>, n: nat, i: Ino) returns (x: Ino, k: nat)
    requires Links(nodes, dirs, n, i) > 0
    ensures x in nodes && nodes[x].Dir? && k < |nodes[x].entries| && nodes[x].entries[k].ino == i
  {
    var es := EntriesOf(nodes, n - 1);
    if Named(es, i) > 0 {
      NamedPositive(es, i);
      x := n - 1;
      k :| 0 <= k < |es| && es[k].ino == i;
    } else {
      x, k := NamedSomewhere(nodes, dirs, n - 1, i);
    }
  }

  lemma AbsentName(nodes: Nodes, depth: Depths, root: Ino, d: Ino, name: Name)
    requires Tree(nodes, depth, root) && IsLive(nodes, d)
    ensures name in Names(nodes[d].entries) <==> Find(nodes[d].entries, name) < |nodes[d].entries|
    ensures DistinctNames(nodes[d].entries)
  {
    DirFacts(nodes, depth, root, d);
    NamesAt(nodes[d].entries, name);
  }

  lemma FoundName(es: seq<Dirent>, k: nat)
    requires DistinctNames(es) && k < |es|
    ensures es[k].name in Names(es) && Names(es)[es[k].name] == es[k].ino
  {
    NamesAt(es, es[k].name);
  }

  /** A directory with no links left has no entries left. */
  lemma NoLinksNoEntries(nodes: Nodes, depth: Depths, root: Ino, n: nat, d: Ino)
    requires Tree(nodes, depth, root) && Counts(nodes, n) && d in nodes
    ensures nodes[d].Dir? && nodes[d].links == 0 ==> nodes[d].entries == []
  {
    if nodes[d].Dir? && nodes[d].entries != [] {
      assert DirOk(nodes, depth, root, d);
      Unnamed(nodes, n, d, 0);
    }
  }

  lemma RenameDone(from: map<Name, Ino>, to: map<Name, Ino>, from1: map<Name, Ino>, to1: map<Name, Ino>,
                   from2: map<Name, Ino>, to2: map<Name, Ino>,
                   same: bool, name: Name, name': Name, f: Ino)
    requires name in from && from[name] == f && (same ==> from == to && from1 == to1 && from2 == to2)
    requires to1 == (if name' in to && to[name'] == f then to else to - {name'}) && (!same ==> from1 == from)
    requires
      && name' !in to1
      && (if same then from2 == from1[name' := f] - {name} else to2 == to1[name' := f] && from2 == from1 - {name})
    ensures RenamedTo(from, to, from2, to2, same, name, name') && !(name' in to && to[name'] == f)
  {
    assert to1[name' := f] == to[name' := f];
  }

  // ------------------------------------------------------------------ recounting

  /** The base counts, and one for every entry of a counted directory. */
  ghost predicate Tallied(nodes: Nodes, counts: seq<int>, base: seq<int>, done: set<Ino>) {
    && |base| == |counts|
    && forall i :: 0 <= i < |counts| ==> base[i] >= 0 && counts[i] == base[i] + Links(nodes, done, |counts|, i)
  }

  /** The directories met so far are exactly those counted or being counted. */
  ghost predicate Met(nodes: Nodes, counts: seq<int>, done: set<Ino>, locked: set<Ino>) {
    && (forall x: Ino :: x < |counts| && IsLive(nodes, x) ==> (counts[x] >= 1 <==> x in done || x in locked))
    && (forall x :: x in done || x in locked ==> x < |counts| && IsLive(nodes, x))
  }

  function Plus(base: seq<int>, es: seq<Dirent>): seq<int> {
    seq(|base|, i requires 0 <= i < |base| => base[i] + Named(es, i))
  }

  function Zeros(counts: seq<int>): nat {
    if counts == [] then 0 else Zeros(counts[..|counts| - 1]) + if counts[|counts| - 1] == 0 then 1 else 0
  }

  lemma TallyStart(nodes: Nodes, counts: seq<int>, base: seq<int>, done: set<Ino>)
    requires Tallied(nodes, counts, base, done)
    ensures |base| == |counts| && Tallied(nodes, counts, Plus(base, []), done)
    ensures forall i :: 0 <= i < |base| ==> base[i] >= 0
  {
    assert Plus(base, []) == base;
  }

  lemma Bounded(nodes: Nodes, counts: seq<int>, base: seq<int>, done: set<Ino>)
    requires Tallied(nodes, counts, base, done)
    ensures forall i :: 0 <= i < |counts| ==> counts[i] >= 0
  {
  }

  lemma EntryInRange(nodes: Nodes, depth: Depths, root: Ino, n: nat, d: Ino, k: nat)
    requires Tree(nodes, depth, root) && Numbered(nodes, n) && IsLive(nodes, d) && k < |nodes[d].entries|
    ensures nodes[d].entries[k].ino in nodes && nodes[d].entries[k].ino < n
    ensures nodes[nodes[d].entries[k].ino].Dir? ==> IsLive(nodes, nodes[d].entries[k].ino)
    ensures d < n
  {
    assert DirOk(nodes, depth, root, d) && ParentOk(nodes, depth, root, d);
    assert k >= 2 ==> ChildOk(nodes, depth, root, d, nodes[d].entries[k]);
  }

  lemma TallyOne(nodes: Nodes, before: seq<int>, counts: seq<int>, base: seq<int>, es: seq<Dirent>, k: nat,
                 done: set<Ino>)
    requires k < |es| && |base| == |before| && Tallied(nodes, before, Plus(base, es[..k]), done)
    requires es[k].ino < |before| && counts == before[es[k].ino := before[es[k].ino] + 1]
    ensures Tallied(nodes, counts, Plus(base, es[..k + 1]), done)
  {
    assert es[..k + 1] == es[..k] + [es[k]];
    var old_, new_ := Plus(base, es[..k]), Plus(base, es[..k + 1]);
    forall i | 0 <= i < |counts| ensures new_[i] >= 0 && counts[i] == new_[i] + Links(nodes, done, |counts|, i) {
      NamedAppend(es[..k], es[k], i);
      assert new_[i] == base[i] + Named(es[..k + 1], i) && old_[i] == base[i] + Named(es[..k], i);
      assert before[i] == old_[i] + Links(nodes, done, |counts|, i);
    }
  }

  lemma TallyEnd(nodes: Nodes, counts: seq<int>, base: seq<int>, done: set<Ino>, d: Ino)
    requires
      && IsLive(nodes, d) && d < |counts| && d !in done && |base| == |counts|
      && Tallied(nodes, counts, Plus(base, nodes[d].entries), done)
    requires forall i :: 0 <= i < |base| ==> base[i] >= 0
    ensures Tallied(nodes, counts, base, done + {d})
  {
    forall i: Ino | i < |counts| ensures counts[i] == base[i] + Links(nodes, done + {d}, |counts|, i) {
      LinksAdd(nodes, done, |counts|, i, d);
      assert Plus(base, nodes[d].entries)[i] == base[i] + Named(nodes[d].entries, i);
    }
  }

  /** Counting an entry for something met before, or for a file, meets no new directory. */
  lemma MetOne(nodes: Nodes, before: seq<int>, counts: seq<int>, done: set<Ino>, locked: set<Ino>, i: Ino)
    requires
      && Met(nodes, before, done, locked) && i < |before| && counts == before[i := before[i] + 1] && before[i] >= 0
      && i in nodes
    ensures counts[i] != 1 || nodes[i].File? ==> Met(nodes, counts, done, locked)
    ensures counts[i] == 1 && IsLive(nodes, i) ==> Met(nodes, counts, done, locked + {i})
  {
  }

  lemma FirstMet(nodes: Nodes, before: seq<int>, counts: seq<int>, done: set<Ino>, locked: set<Ino>, i: Ino)
    requires Met(nodes, before, done, locked) && i < |before| && before[i] == 0 && counts == before[i := 1]
    ensures i !in done && i !in locked && Zeros(counts) < Zeros(before)
  {
    ZerosDrop(before, i);
  }

  lemma {:induction false} ZerosUp(counts: seq<int>, i: nat, v: int)
    requires i < |counts| && v != 0
    ensures Zeros(counts[i := v]) <= Zeros(counts)
  {
    var n := |counts| - 1;
    if i < n {
      ZerosUp(counts[..n], i, v);
      assert counts[i := v][..n] == counts[..n][i := v];
    } else {
      assert counts[i := v][..n] == counts[..n];
    }
  }

  lemma {:induction false} ZerosDrop(counts: seq<int>, i: nat)
    requires i < |counts| && counts[i] == 0
    ensures Zeros(counts[i := 1]) == Zeros(counts) - 1
  {
    var n := |counts| - 1;
    if i < n {
      ZerosDrop(counts[..n], i);
      assert counts[i := 1][..n] == counts[..n][i := 1];
    } else {
      assert counts[i := 1][..n] == counts[..n];
    }
  }

  lemma MetChild(nodes: Nodes, counts: seq<int>, done: set<Ino>, locked: set<Ino>, i: Ino)
    requires Met(nodes, counts, done, locked + {i}) && i in done
    ensures Met(nodes, counts, done, locked)
  {
  }

  lemma MetEnd(nodes: Nodes, counts: seq<int>, done: set<Ino>, locked: set<Ino>, d: Ino)
    requires Met(nodes, counts, done, locked) && d in locked
    ensures Met(nodes, counts, done + {d}, locked)
  {
  }

  ghost predicate Numbered(nodes: Nodes, n: nat) {
    forall i :: i in nodes ==> i < n
  }

  lemma RootInRange(nodes: Nodes, depth: Depths, root: Ino, n: nat)
    requires Tree(nodes, depth, root) && Numbered(nodes, n)
    ensures IsLive(nodes, root) && root < n
  {
  }

  lemma CountsStart(nodes: Nodes, base: seq<int>, n: nat, root: Ino)
    requires root < n == |base| && IsLive(nodes, root)
    requires forall i :: 0 <= i < n ==> base[i] == if i == root then 1 else 0
    ensures Tallied(nodes, base, base, {}) && Met(nodes, base, {}, {root})
  {
    hide IsLive;
    forall i: Ino | i < n ensures Links(nodes, {}, n, i) == 0 {
      NoDirs(nodes, n, i);
    }
  }

  lemma {:induction false} NoDirs(nodes: Nodes, n: nat, i: Ino)
    ensures Links(nodes, {}, n, i) == 0
  {
    if n > 0 {
      NoDirs(nodes, n - 1, i);
    }
  }

  /** By induction on its depth, every live directory was met. */
  lemma {:induction false} AllMet(nodes: Nodes, depth: Depths, root: Ino, n: nat, counts: seq<int>, base: seq<int>,
                                  done: set<Ino>, x: Ino)
    requires
      && Tree(nodes, depth, root) && |counts| == n && Tallied(nodes, counts, base, done)
      && Met(nodes, counts, done, {root}) && root in done
    requires IsLive(nodes, x) && (forall y :: y in nodes ==> y < n)
    ensures x in done
    decreases if x in depth then depth[x] else 0
  {
    hide Links, Named;
    if x != root {
      assert DirOk(nodes, depth, root, x) && ParentOk(nodes, depth, root, x);
      var p := nodes[x].entries[1].ino;
      AllMet(nodes, depth, root, n, counts, base, done, p);
      NamedPositive(nodes[p].entries, x);
      LinksOf(nodes, done, n, x, p);
    }
  }

  lemma CountsEnd(nodes: Nodes, depth: Depths, root: Ino, n: nat, base: seq<int>, done: set<Ino>, counts: seq<int>)
    requires Tree(nodes, depth, root) && Numbered(nodes, n) && |counts| == n == |base| && root < n && root in done
    requires forall i :: 0 <= i < n ==> base[i] == if i == root then 1 else 0
    requires var all := counts[root := counts[root] + 1];
      Tallied(nodes, all, base, done) && Met(nodes, all, done, {root})
    ensures forall i: Ino :: i < n ==> counts[i] == Links(nodes, Inos(n), n, i) && (counts[i] != 0 ==> i in nodes)
  {
    var all := counts[root := counts[root] + 1];
    EntriesKnown(nodes, depth, root);
    forall d: Ino | d < n && EntriesOf(nodes, d) != [] ensures d in done <==> d in Inos(n) {
      AllMet(nodes, depth, root, n, all, base, done, d);
    }
    forall i: Ino | i < n ensures counts[i] == Links(nodes, Inos(n), n, i) && (counts[i] != 0 ==> i in nodes) {
      LinksSame(nodes, done, Inos(n), n, i);
      assert all[i] == base[i] + Links(nodes, done, n, i);
      if i !in nodes {
        NeverNamed(nodes, n, Inos(n), i);
      }
    }
  }
}
