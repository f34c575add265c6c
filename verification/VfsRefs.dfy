/**
 * Reference counts of the virtual file system: vnodes, open files, descriptor tables and
 * current directories, over the system calls that move references between them. The file
 * systems underneath are an arbitrary directory lookup and arbitrary answers.
 */
module VfsRefs {
  const NFILES := 32
  const NAME_LEN := 28
  const EPERM := 1
  const ENOENT := 2
  const ENXIO := 6
  const EBADF := 9
  const ENOMEM := 12
  const EEXIST := 17
  const ENOTDIR := 20
  const EISDIR := 21
  const EINVAL := 22
  const EMFILE := 24
  const ENAMETOOLONG := 36
  const ENOTEMPTY := 39

  type VnodeId = nat
  type FileId = nat

  datatype Maybe = None | Some(id: nat)

  datatype Mode = Mode(read: bool, write: bool, append: bool)

  /** An entry of the slab of open files. */
  datatype File = Free | Live(vnode: VnodeId, mode: Mode, refcount: nat, pos: int)

  datatype Proc = Proc(slots: seq<Maybe>, cwd: Maybe)

  type Counts = map<VnodeId, nat>

  // ------------------------------------------------------------------- counting references

  function Count(counts: Counts, v: VnodeId): nat {
    if v in counts then counts[v] else 0
  }

  function Refs(files: seq<File>, f: FileId): nat {
    if f < |files| && files[f].Live? then files[f].refcount else 0
  }

  function OnVnode(file: File, v: VnodeId): nat {
    if file.Live? && file.vnode == v then 1 else 0
  }

  function OpenOn(files: seq<File>, v: VnodeId): nat {
    if files == [] then 0 else OpenOn(files[..|files| - 1], v) + OnVnode(files[|files| - 1], v)
  }

  function Times(slots: seq<Maybe>, f: FileId): nat {
    if slots == [] then 0 else Times(slots[..|slots| - 1], f) + if slots[|slots| - 1] == Some(f) then 1 else 0
  }

  function Slots(procs: seq<Proc>, f: FileId): nat {
    if procs == [] then 0 else Slots(procs[..|procs| - 1], f) + Times(procs[|procs| - 1].slots, f)
  }

  function Cwds(procs: seq<Proc>, v: VnodeId): nat {
    if procs == [] then 0 else Cwds(procs[..|procs| - 1], v) + if procs[|procs| - 1].cwd == Some(v) then 1 else 0
  }

  lemma {:induction false} OpenOnPut(files: seq<File>, k: nat, x: File, v: VnodeId)
    requires k < |files|
    ensures OpenOn(files[k := x], v) == OpenOn(files, v) - OnVnode(files[k], v) + OnVnode(x, v)
  {
    var n := |files| - 1;
    if k < n {
      OpenOnPut(files[..n], k, x, v);
      assert files[k := x][..n] == files[..n][k := x];
    } else {
      assert files[k := x][..n] == files[..n];
    }
  }

  lemma OpenOnAppend(files: seq<File>, x: File, v: VnodeId)
    ensures OpenOn(files + [x], v) == OpenOn(files, v) + OnVnode(x, v)
  {
    assert (files + [x])[..|files|] == files;
  }

  lemma {:induction false} OpenOnAt(files: seq<File>, k: nat, v: VnodeId)
    requires k < |files|
    ensures OpenOn(files, v) >= OnVnode(files[k], v)
  {
    if k < |files| - 1 {
      OpenOnAt(files[..|files| - 1], k, v);
    }
  }

  lemma {:induction false} TimesPut(slots: seq<Maybe>, k: nat, x: Maybe, f: FileId)
    requires k < |slots|
    ensures Times(slots[k := x], f)
      == Times(slots, f) - (if slots[k] == Some(f) then 1 else 0) + if x == Some(f) then 1 else 0
  {
    var n := |slots| - 1;
    if k < n {
      TimesPut(slots[..n], k, x, f);
      assert slots[k := x][..n] == slots[..n][k := x];
    } else {
      assert slots[k := x][..n] == slots[..n];
    }
  }

  lemma {:induction false} TimesAt(slots: seq<Maybe>, k: nat)
    requires k < |slots| && slots[k].Some?
    ensures Times(slots, slots[k].id) > 0
  {
    if k < |slots| - 1 {
      TimesAt(slots[..|slots| - 1], k);
    }
  }

  lemma {:induction false} SlotsPut(procs: seq<Proc>, p: nat, x: Proc, f: FileId)
    requires p < |procs|
    ensures Slots(procs[p := x], f) == Slots(procs, f) - Times(procs[p].slots, f) + Times(x.slots, f)
    ensures Times(procs[p].slots, f) <= Slots(procs, f)
  {
    hide Times;
    var n := |procs| - 1;
    if p < n {
      SlotsPut(procs[..n], p, x, f);
      assert procs[p := x][..n] == procs[..n][p := x];
    } else {
      assert procs[p := x][..n] == procs[..n];
    }
  }

  lemma {:induction false} CwdsPut(procs: seq<Proc>, p: nat, x: Proc, v: VnodeId)
    requires p < |procs|
    ensures Cwds(procs[p := x], v)
      == Cwds(procs, v) - (if procs[p].cwd == Some(v) then 1 else 0) + if x.cwd == Some(v) then 1 else 0
    ensures procs[p].cwd == Some(v) ==> Cwds(procs, v) > 0
  {
    var n := |procs| - 1;
    if p < n {
      CwdsPut(procs[..n], p, x, v);
      assert procs[p := x][..n] == procs[..n][p := x];
    } else {
      assert procs[p := x][..n] == procs[..n];
    }
  }

  // --------------------------------------------------------------------- the invariant

  /** What the running call itself holds for the moment. */
  datatype Held = Held(vnodes: multiset<VnodeId>, files: multiset<FileId>)

  const NOTHING := Held(multiset{}, multiset{})

  datatype State = State(counts: Counts, files: seq<File>, procs: seq<Proc>, root: VnodeId)

  ghost predicate VnodesBalance(s: State, held: multiset<VnodeId>) {
    && (forall v: VnodeId ::
         Count(s.counts, v) == OpenOn(s.files, v) + Cwds(s.procs, v) + (if v == s.root then 1 else 0) + held[v])
    && (forall v :: v in s.counts ==> s.counts[v] > 0)
  }

  ghost predicate FilesBalance(s: State, held: multiset<FileId>) {
    && (forall f: FileId :: Refs(s.files, f) == Slots(s.procs, f) + held[f])
    && (forall f: FileId :: f < |s.files| && s.files[f].Live? ==> s.files[f].refcount > 0)
    && (forall p :: 0 <= p < |s.procs| ==> |s.procs[p].slots| == NFILES)
  }

  ghost predicate Balanced(s: State, held: Held) {
    VnodesBalance(s, held.vnodes) && FilesBalance(s, held.files)
  }

  /** The counts follow from who refers to what: a call that leaves the referrers alone leaves the counts alone. */
  lemma CountsFollow(s: State, s': State, held: Held)
    requires Balanced(s, held) && Balanced(s', held) && s'.files == s.files && s'.procs == s.procs && s'.root == s.root
    ensures s'.counts == s.counts
  {
    hide OpenOn, Cwds, FilesBalance;
    forall v: VnodeId ensures v in s.counts <==> v in s'.counts {
      assert Count(s.counts, v) == Count(s'.counts, v);
    }
    forall v | v in s.counts ensures s.counts[v] == s'.counts[v] {
      assert Count(s.counts, v) == Count(s'.counts, v);
    }
  }

  /** Nothing leaks: a vnode is in memory just when an open file, a current directory or the root refers to it. */
  lemma NoLeak(s: State, v: VnodeId)
    requires Balanced(s, NOTHING)
    ensures v in s.counts <==> OpenOn(s.files, v) > 0 || Cwds(s.procs, v) > 0 || v == s.root
  {
    hide OpenOn, Cwds, FilesBalance;
    assert Count(s.counts, v) == OpenOn(s.files, v) + Cwds(s.procs, v) + (if v == s.root then 1 else 0);
  }

  /** A file is there just when a descriptor names it. */
  lemma NoLostFile(s: State, f: FileId)
    requires Balanced(s, NOTHING)
    ensures f < |s.files| && s.files[f].Live? <==> Slots(s.procs, f) > 0
  {
    hide Slots, VnodesBalance;
    assert Refs(s.files, f) == Slots(s.procs, f);
  }

  // ----------------------------------------------------------------- single moves of a reference

  function Raised(counts: Counts, v: VnodeId): Counts {
    counts[v := Count(counts, v) + 1]
  }

  /** The last put takes the vnode out of memory. */
  function Lowered(counts: Counts, v: VnodeId): Counts
    requires v in counts && counts[v] > 0
  {
    if counts[v] == 1 then counts - {v} else counts[v := counts[v] - 1]
  }

  lemma RaiseBalance(s: State, held: Held, v: VnodeId)
    requires Balanced(s, held)
    ensures Balanced(s.(counts := Raised(s.counts, v)), held.(vnodes := held.vnodes + multiset{v}))
  {
    hide OpenOn, Cwds, Slots;
    var s' := s.(counts := Raised(s.counts, v));
    forall x: VnodeId
      ensures Count(s'.counts, x)
          == OpenOn(s.files, x) + Cwds(s.procs, x) + (if x == s.root then 1 else 0) + (held.vnodes + multiset{v})[x]
    {
      assert Count(s.counts, x)
               == OpenOn(s.files, x) + Cwds(s.procs, x) + (if x == s.root then 1 else 0) + held.vnodes[x];
    }
  }

  lemma LowerBalance(s: State, held: Held, v: VnodeId)
    requires Balanced(s, held) && v in held.vnodes
    ensures v in s.counts && s.counts[v] > 0
    ensures Balanced(s.(counts := Lowered(s.counts, v)), held.(vnodes := held.vnodes - multiset{v}))
  {
    hide OpenOn, Cwds, Slots;
    assert Count(s.counts, v)
        == OpenOn(s.files, v) + Cwds(s.procs, v) + (if v == s.root then 1 else 0) + held.vnodes[v];
    var s' := s.(counts := Lowered(s.counts, v));
    forall x: VnodeId
      ensures Count(s'.counts, x)
          == OpenOn(s.files, x) + Cwds(s.procs, x) + (if x == s.root then 1 else 0) + (held.vnodes - multiset{v})[x]
    {
      assert Count(s.counts, x)
               == OpenOn(s.files, x) + Cwds(s.procs, x) + (if x == s.root then 1 else 0) + held.vnodes[x];
    }
  }

  /** Another number of references, or another position, on the same open file. */
  lemma FileBalance(s: State, held: Held, f: FileId, x: File, files: multiset<FileId>)
    requires Balanced(s, held) && f < |s.files| && s.files[f].Live? && x.Live? && x.vnode == s.files[f].vnode
    requires x.refcount > 0
    requires
      && x.refcount + held.files[f] == s.files[f].refcount + files[f]
      && forall g: FileId :: g != f ==> files[g] == held.files[g]
    ensures Balanced(s.(files := s.files[f := x]), held.(files := files))
  {
    hide OpenOn, Cwds, Slots;
    var s' := s.(files := s.files[f := x]);
    forall v: VnodeId ensures OpenOn(s'.files, v) == OpenOn(s.files, v) {
      OpenOnPut(s.files, f, x, v);
    }
    forall g: FileId ensures Refs(s'.files, g) == Slots(s.procs, g) + files[g] {
      assert Refs(s.files, g) == Slots(s.procs, g) + held.files[g];
    }
  }

  /** The last reference goes: the file's own reference to its vnode is now in hand. */
  lemma FreeBalance(s: State, held: Held, f: FileId)
    requires Balanced(s, held) && f < |s.files| && s.files[f].Live? && s.files[f].refcount == 1 && f in held.files
    ensures Balanced(s.(files := s.files[f := Free]),
      Held(held.vnodes + multiset{s.files[f].vnode}, held.files - multiset{f}))
  {
    hide OpenOn, Cwds, Slots;
    var s' := s.(files := s.files[f := Free]);
    forall v: VnodeId
      ensures OpenOn(s'.files, v) + (held.vnodes + multiset{s.files[f].vnode})[v] == OpenOn(s.files, v) + held.vnodes[v]
    {
      OpenOnPut(s.files, f, Free, v);
    }
    forall g: FileId ensures Refs(s'.files, g) == Slots(s.procs, g) + (held.files - multiset{f})[g] {
      assert Refs(s.files, g) == Slots(s.procs, g) + held.files[g];
    }
  }

  function WithSlot(procs: seq<Proc>, p: nat, fd: nat, x: Maybe): seq<Proc>
    requires p < |procs| && fd < |procs[p].slots|
  {
    procs[p := procs[p].(slots := procs[p].slots[fd := x])]
  }

  /** A descriptor gives up or takes over a reference that the call holds. */
  lemma SlotBalance(s: State, held: Held, p: nat, fd: nat, x: Maybe, files: multiset<FileId>)
    requires Balanced(s, held) && p < |s.procs| && fd < |s.procs[p].slots|
    requires forall f: FileId ::
      files[f] + (if x == Some(f) then 1 else 0) == held.files[f] + if s.procs[p].slots[fd] == Some(f) then 1 else 0
    ensures Balanced(s.(procs := WithSlot(s.procs, p, fd, x)), held.(files := files))
  {
    hide OpenOn, Cwds, Slots, Times;
    var s' := s.(procs := WithSlot(s.procs, p, fd, x));
    forall v: VnodeId ensures Cwds(s'.procs, v) == Cwds(s.procs, v) {
      CwdsPut(s.procs, p, s'.procs[p], v);
    }
    forall f: FileId ensures Slots(s'.procs, f) + files[f] == Slots(s.procs, f) + held.files[f] {
      SlotsPut(s.procs, p, s'.procs[p], f);
      TimesPut(s.procs[p].slots, fd, x, f);
    }
  }

  function WithCwd(procs: seq<Proc>, p: nat, x: Maybe): seq<Proc>
    requires p < |procs|
  {
    procs[p := procs[p].(cwd := x)]
  }

  lemma CwdBalance(s: State, held: Held, p: nat, x: Maybe, vnodes: multiset<VnodeId>)
    requires Balanced(s, held) && p < |s.procs|
    requires forall v: VnodeId ::
      vnodes[v] + (if x == Some(v) then 1 else 0) == held.vnodes[v] + if s.procs[p].cwd == Some(v) then 1 else 0
    ensures Balanced(s.(procs := WithCwd(s.procs, p, x)), held.(vnodes := vnodes))
  {
    hide OpenOn, Cwds, Slots, Times;
    var s' := s.(procs := WithCwd(s.procs, p, x));
    forall v: VnodeId ensures Cwds(s'.procs, v) + vnodes[v] == Cwds(s.procs, v) + held.vnodes[v] {
      CwdsPut(s.procs, p, s'.procs[p], v);
    }
    forall f: FileId ensures Slots(s'.procs, f) == Slots(s.procs, f) {
      SlotsPut(s.procs, p, s'.procs[p], f);
    }
  }

  /** A new entry in the slab, at an address that is free. */
  function WithFile(files: seq<File>, at: nat, x: File): seq<File>
    requires at <= |files|
  {
    if at < |files| then files[at := x] else files + [x]
  }

  /** A new file takes over a vnode reference, and the caller holds the file. */
  lemma NewBalance(s: State, held: Held, at: nat, v: VnodeId, mode: Mode)
    requires Balanced(s, held) && v in held.vnodes && at <= |s.files| && (at < |s.files| ==> s.files[at].Free?)
    ensures Balanced(s.(files := WithFile(s.files, at, Live(v, mode, 1, 0))),
               Held(held.vnodes - multiset{v}, held.files + multiset{at}))
  {
    hide OpenOn, Cwds, Slots, Times;
    var x := Live(v, mode, 1, 0);
    var s' := s.(files := WithFile(s.files, at, x));
    forall w: VnodeId
      ensures OpenOn(s'.files, w) + (held.vnodes - multiset{v})[w] == OpenOn(s.files, w) + held.vnodes[w]
    {
      if at < |s.files| {
        OpenOnPut(s.files, at, x, w);
      } else {
        OpenOnAppend(s.files, x, w);
      }
    }
    forall g: FileId ensures Refs(s'.files, g) == Slots(s.procs, g) + (held.files + multiset{at})[g] {
      assert Refs(s.files, g) == Slots(s.procs, g) + held.files[g];
    }
  }

  /** What is in a table, in hand, or the current directory is there. */
  lemma SlotIsLive(s: State, held: Held, p: nat, fd: nat)
    requires Balanced(s, held) && p < |s.procs| && fd < |s.procs[p].slots| && s.procs[p].slots[fd].Some?
    ensures var f := s.procs[p].slots[fd].id; f < |s.files| && s.files[f].Live? && s.files[f].vnode in s.counts
  {
    hide OpenOn, Cwds, Slots, Times;
    var f := s.procs[p].slots[fd].id;
    TimesAt(s.procs[p].slots, fd);
    SlotsPut(s.procs, p, s.procs[p], f);
    assert Refs(s.files, f) == Slots(s.procs, f) + held.files[f];
    OpenOnAt(s.files, f, s.files[f].vnode);
    assert Count(s.counts, s.files[f].vnode) > 0;
  }

  lemma HeldIsLive(s: State, held: Held, f: FileId)
    requires Balanced(s, held) && f in held.files
    ensures f < |s.files| && s.files[f].Live? && s.files[f].refcount > 0
  {
    hide OpenOn, Cwds, Slots, Times;
    assert Refs(s.files, f) == Slots(s.procs, f) + held.files[f];
  }

  lemma CwdIsThere(s: State, held: Held, p: nat)
    requires Balanced(s, held) && p < |s.procs| && s.procs[p].cwd.Some?
    ensures s.procs[p].cwd.id in s.counts
  {
    hide OpenOn, Slots, Times, Cwds;
    var v := s.procs[p].cwd.id;
    CwdsPut(s.procs, p, s.procs[p], v);
    assert Count(s.counts, v) > 0;
  }

  lemma RootIsThere(s: State, held: Held)
    requires Balanced(s, held)
    ensures s.root in s.counts
  {
    hide OpenOn, Slots, Times, Cwds;
    assert Count(s.counts, s.root) > 0;
  }

  lemma HeldVnodeIsThere(s: State, held: Held, v: VnodeId)
    requires Balanced(s, held) && v in held.vnodes
    ensures v in s.counts
  {
    hide OpenOn, Slots, Times, Cwds;
    assert Count(s.counts, v) > 0;
  }

  // ----------------------------------------------------------------------------- paths

  type Errno = e: int | e > 0 witness 1

  datatype Answer = Err(e: Errno) | Ok(vnode: VnodeId) {
    function Code(): int {
      if Err? then 0 - (e as int) else 0
    }
  }

  /** An answer as a return value and an out-parameter. */
  predicate Says(a: Answer, r: int, v: VnodeId) {
    if a.Err? then r + a.e == 0 else r == 0 && v == a.vnode
  }

  /** A vnode that is handed out comes with a reference. */
  function With(held: Held, a: Answer): Held {
    if a.Err? then held else held.(vnodes := held.vnodes + multiset{a.vnode})
  }

  function Without(held: Held, v: VnodeId): Held {
    held.(vnodes := held.vnodes - multiset{v})
  }

  predicate Has(held: Held, v: VnodeId) {
    v in held.vnodes
  }

  /** Putting one of two references leaves the other. */
  lemma Dropped(held: Held, a: VnodeId, b: VnodeId)
    ensures Has(With(held, Ok(a)), a) && Without(With(held, Ok(a)), a) == held
    ensures Has(With(held, Ok(b)), b) && Without(With(held, Ok(b)), b) == held
    ensures var two := With(With(held, Ok(a)), Ok(b));
      Has(two, a) && Has(two, b) && Without(two, a) == With(held, Ok(b)) && Without(two, b) == With(held, Ok(a))
  {
    assert held.vnodes + multiset{a} - multiset{a} == held.vnodes;
    assert held.vnodes + multiset{b} - multiset{b} == held.vnodes;
    assert held.vnodes + multiset{a} + multiset{b} - multiset{a} == held.vnodes + multiset{b};
    assert held.vnodes + multiset{a} + multiset{b} - multiset{b} == held.vnodes + multiset{a};
  }

  lemma NoneTaken(held: Held, a: Answer)
    ensures a.Err? ==> With(held, a) == held
  {
  }

  datatype Kind = Dir | Reg | Chr(device: bool) | Blk(device: bool)

  /** What a directory says about a name; any file system at all. */
  type Lookup = (VnodeId, string) -> Answer

  function SkipSlashes(path: string, i: nat): (j: nat)
    requires i <= |path|
    ensures i <= j <= |path| && (j < |path| ==> path[j] != '/') && forall k :: i <= k < j ==> path[k] == '/'
    decreases |path| - i
  {
    if i < |path| && path[i] == '/' then SkipSlashes(path, i + 1) else i
  }

  function NameEnd(path: string, i: nat): (j: nat)
    requires i <= |path|
    ensures i <= j <= |path| && (j < |path| ==> path[j] == '/') && (forall k :: i <= k < j ==> path[k] != '/')
    ensures i < |path| && path[i] != '/' ==> i < j
    decreases |path| - i
  {
    if i < |path| && path[i] != '/' then NameEnd(path, i + 1) else i
  }

  /** The names in a path from position `i` on. */
  function Names(path: string, i: nat): seq<string>
    requires i <= |path|
    decreases |path| - i
  {
    var b := SkipSlashes(path, i);
    if b == |path| then [] else [path[b..NameEnd(path, b)]] + Names(path, NameEnd(path, b))
  }

  /** Down a list of names. */
  function Walk(lookup: Lookup, kind: VnodeId -> Kind, v: VnodeId, names: seq<string>): Answer
    decreases |names|
  {
    if names == [] then Ok(v)
    else if !kind(v).Dir? then Err(ENOTDIR)
    else match lookup(v, names[0])
      case Err(e) => Err(e)
      case Ok(w) => Walk(lookup, kind, w, names[1..])
  }

  function AllButLast(names: seq<string>): seq<string> {
    if names == [] then [] else names[..|names| - 1]
  }

  /** A path written out of names, each after a slash. */
  function Written(names: seq<string>): string {
    if names == [] then "" else "/" + names[0] + Written(names[1..])
  }

  predicate IsName(name: string) {
    name != "" && '/' !in name
  }

  /** Names reads back what was written, whatever stands before it. */
  lemma {:induction false} NamesReadBack(before: string, names: seq<string>)
    requires forall k :: 0 <= k < |names| ==> IsName(names[k])
    ensures Names(before + Written(names), |before|) == names
    decreases |names|
  {
    var path, i := before + Written(names), |before|;
    if names == [] {
      assert SkipSlashes(path, i) == |path|;
    } else {
      var name, rest := names[0], names[1..];
      var before' := before + "/" + name;
      assert path == before' + Written(rest);
      assert path[i] == '/' && path[i + 1] == name[0];
      assert SkipSlashes(path, i + 1) == i + 1;
      NameEndIs(path, i + 1, |before'|, rest);
      NamesReadBack(before', rest);
      assert path[i + 1..|before'|] == name;
    }
  }

  lemma {:induction false} NameEndIs(path: string, i: nat, j: nat, rest: seq<string>)
    requires i <= j <= |path| && path[j..] == Written(rest) && forall k :: i <= k < j ==> path[k] != '/'
    ensures NameEnd(path, i) == j
    decreases j - i
  {
    if i < j {
      NameEndIs(path, i + 1, j, rest);
    } else if j < |path| {
      assert path[j] == path[j..][0];
    }
  }

  // ------------------------------------------------------------------ what opening a path means

  function Start(root: VnodeId, base: VnodeId, path: string): VnodeId {
    if path != "" && path[0] == '/' then root else base
  }

  function ParentOf(lookup: Lookup, kind: VnodeId -> Kind, start: VnodeId, path: string): Answer {
    Walk(lookup, kind, start, AllButLast(Names(path, 0)))
  }

  function BaseName(path: string): string {
    var names := Names(path, 0);
    if names == [] then "." else names[|names| - 1]
  }

  /** The path asks for a directory. */
  predicate Slashed(path: string) {
    Names(path, 0) != [] && path != "" && path[|path| - 1] == '/'
  }

  datatype Outcome = Fails(e: Errno) | Found(vnode: VnodeId) | Creates(dir: VnodeId, name: string)

  function Opened(lookup: Lookup, kind: VnodeId -> Kind, start: VnodeId, path: string, creat: bool): Outcome {
    if path == "" then Fails(EINVAL) else
    match ParentOf(lookup, kind, start, path)
    case Err(e) => Fails(e)
    case Ok(dir) =>
      if !kind(dir).Dir? then Fails(ENOTDIR)
      else if creat && Slashed(path) then Fails(EINVAL)
      else if |BaseName(path)| > NAME_LEN then Fails(ENAMETOOLONG)
      else LastStep(lookup, kind, dir, BaseName(path), Slashed(path), creat)
  }

  function LastStep(lookup: Lookup, kind: VnodeId -> Kind, dir: VnodeId, name: string, slashed: bool,
                    creat: bool): Outcome
  {
    match lookup(dir, name)
    case Ok(w) => if kind(w).Reg? && slashed then Fails(ENOTDIR) else Found(w)
    case Err(e) => if creat && e == ENOENT then Creates(dir, name) else Fails(e)
  }

  lemma WalkName(lookup: Lookup, kind: VnodeId -> Kind, dir: VnodeId, name: string)
    requires kind(dir).Dir?
    ensures Walk(lookup, kind, dir, [name]) == lookup(dir, name)
  {
    assert [name][1..] == [];
  }

  /** A name as a stretch of the path, or the constant ".". */
  datatype Name = Dot | Part(at: nat, len: nat)

  predicate Denotes(name: Name, path: string) {
    if name.Dot? then Names(path, 0) == []
    else name.at + name.len <= |path| && Names(path, 0) != [] && path[name.at..name.at + name.len] == BaseName(path)
         && (name.at + name.len < |path| ==> path[name.at + name.len] == '/')
         && (name.at + name.len < |path| <==> path[|path| - 1] == '/')
  }

  function Text(name: Name, path: string): string {
    if name.Part? && name.at + name.len <= |path| then path[name.at..name.at + name.len] else "."
  }

  /** The character after the name is a slash. */
  predicate SlashAfter(name: Name, path: string) {
    name.Part? && name.at + name.len < |path| && path[name.at + name.len] == '/'
  }

  lemma NameFacts(name: Name, path: string)
    requires Denotes(name, path) && path != ""
    ensures Text(name, path) == BaseName(path) && (SlashAfter(name, path) <==> Slashed(path))
  {
  }

  /** What the caller of a path sees, given how the file system answers a request to create. */
  function Result(o: Outcome, made: Answer): Answer {
    match o
    case Fails(e) => Err(e)
    case Found(v) => Ok(v)
    case Creates(_, _) => made
  }

  datatype Flags = Flags(wronly: bool, rdwr: bool, creat: bool, trunc: bool, append: bool)

  const RDONLY := Flags(false, false, false, false, false)

  /** The next name of a path: where it starts, its length, and where to go on (-1 at the end of the path). */
  method Tokenize(path: string, search: int) returns (token: nat, len: nat, rest: int)
    requires 0 <= search <= |path|
    ensures token == SkipSlashes(path, search) && token + len == NameEnd(path, token)
    ensures rest == if token + len == |path| then -1 else token + len
  {
    var i := search;
    while i < |path| && path[i] == '/'
      invariant 0 <= i <= |path| && SkipSlashes(path, i) == SkipSlashes(path, search)
    {
      i := i + 1;
    }
    token, len := i, 0;
    while i < |path| && path[i] != '/'
      invariant i == token + len <= |path| && NameEnd(path, i) == NameEnd(path, token)
    {
      len := len + 1;
      i := i + 1;
    }
    rest := if i == |path| then -1 else i;
  }

  method SkipAhead(path: string, search: int) returns (rest: int)
    requires -1 <= search <= |path|
    ensures rest == if search < 0 then -1 else SkipSlashes(path, search)
  {
    rest := search;
    while rest >= 0 && rest < |path| && path[rest] == '/'
      invariant search < 0 ==> rest == search
      invariant search >= 0 ==> 0 <= rest <= |path| && SkipSlashes(path, rest) == SkipSlashes(path, search)
      decreases |path| - rest
    {
      rest := rest + 1;
    }
  }

  /** What one token says about the names that are left. */
  lemma NamesStep(path: string, i: nat)
    requires i <= |path|
    ensures var b := SkipSlashes(path, i); var e := NameEnd(path, b); var rest := Names(path, SkipSlashes(path, e));
      && (b == e <==> Names(path, i) == [])
      && (b < e ==> Names(path, i) == [path[b..e]] + rest && (rest == [] <==> SkipSlashes(path, e) == |path|))
  {
    var b := SkipSlashes(path, i);
    var e := NameEnd(path, b);
    SkipTwice(path, e);
    SkipTwice(path, SkipSlashes(path, e));
    assert Names(path, i) == if b == |path| then [] else [path[b..e]] + Names(path, e);
  }

  /** The next name and the position of the one after it. */
  method NextName(path: string, search: int) returns (token: nat, len: nat, rest: int)
    requires 0 <= search <= |path|
    ensures len == 0 <==> Names(path, search) == []
    ensures token + len <= |path| && rest <= |path|
    ensures 0 <= rest < |path| && len > 0 ==>
      search < rest && Names(path, rest) != [] && Names(path, search) == [path[token..token + len]] + Names(path, rest)
    ensures !(0 <= rest < |path|) && len > 0 ==> Names(path, search) == [path[token..token + len]]
    ensures !(0 <= rest < |path|) && len > 0 ==>
      path[token + len - 1] != '/' && forall k :: token + len <= k < |path| ==> path[k] == '/'
  {
    hide Names;
    NamesStep(path, search);
    token, len, rest := Tokenize(path, search);
    rest := SkipAhead(path, rest);
  }

  lemma SkipTwice(path: string, i: nat)
    requires i <= |path|
    ensures
      && SkipSlashes(path, SkipSlashes(path, i)) == SkipSlashes(path, i)
      && Names(path, SkipSlashes(path, i)) == Names(path, i)
  {
    var b := SkipSlashes(path, i);
    assert SkipSlashes(path, b) == b;
    assert Names(path, b) == if b == |path| then [] else [path[b..NameEnd(path, b)]] + Names(path, NameEnd(path, b));
  }

  function NoSlots(): seq<Maybe> {
    seq(NFILES, _ => None)
  }

  lemma {:induction false} TimesNone(slots: seq<Maybe>, f: FileId)
    requires forall k :: 0 <= k < |slots| ==> slots[k] == None
    ensures Times(slots, f) == 0
  {
    if slots != [] {
      TimesNone(slots[..|slots| - 1], f);
    }
  }

  lemma StartBalance(root: VnodeId)
    ensures Balanced(State(map[root := 2], [], [Proc(NoSlots(), Some(root))], root), NOTHING)
  {
    var p := Proc(NoSlots(), Some(root));
    assert [p][..0] == [];
    forall f: FileId ensures Slots([p], f) == 0 {
      TimesNone(NoSlots(), f);
    }
    forall v: VnodeId ensures Cwds([p], v) == if v == root then 1 else 0 {
    }
  }

  class Vfs {
    var counts: Counts
    var files: seq<File>
    var procs: seq<Proc>
    var curproc: nat
    var lookup: Lookup
    const root: VnodeId
    const kind: VnodeId -> Kind
    ghost var held: Held

    ghost function Now(): State
      reads this`counts, this`files, this`procs
    {
      State(counts, files, procs, root)
    }

    ghost predicate Valid()
      reads this
    {
      curproc < |procs| && Balanced(Now(), held)
    }

    /** Between system calls. */
    ghost predicate Idle()
      reads this
    {
      held == NOTHING && forall p :: 0 <= p < |procs| ==> procs[p].cwd.Some?
    }

    /** After the root file system is mounted: one process, whose current directory is the root. */
    constructor (root: VnodeId, kind: VnodeId -> Kind, lookup: Lookup)
      ensures this.root == root && this.kind == kind && this.lookup == lookup && files == []
      ensures procs == [Proc(NoSlots(), Some(root))] && Valid() && Idle()
    {
      this.root, this.kind, this.lookup := root, kind, lookup;
      counts, files, curproc := map[root := 2], [], 0;
      procs := [Proc(NoSlots(), Some(root))];
      held := NOTHING;
      new;
      StartBalance(root);
    }

    method Vref(v: VnodeId)
      requires Valid() && v in counts
      modifies this`counts, this`held
      ensures held == With(old(held), Ok(v))
      ensures Valid()
    {
      RaiseBalance(Now(), held, v);
      counts := counts[v := counts[v] + 1];
      held := held.(vnodes := held.vnodes + multiset{v});
    }

    method Vput(v: VnodeId)
      requires Valid() && Has(held, v)
      modifies this`counts, this`held
      ensures held == Without(old(held), v)
      ensures Valid()
    {
      LowerBalance(Now(), held, v);
      if counts[v] == 1 {
        counts := counts - {v};
      } else {
        counts := counts[v := counts[v] - 1];
      }
      held := held.(vnodes := held.vnodes - multiset{v});
    }

    /** A file system hands out a vnode with a reference added for the caller. */
    method Vget(v: VnodeId)
      requires Valid()
      modifies this`counts, this`held
      ensures held == With(old(held), Ok(v))
      ensures Valid()
    {
      RaiseBalance(Now(), held, v);
      counts := counts[v := Count(counts, v) + 1];
      held := held.(vnodes := held.vnodes + multiset{v});
    }

    method Fref(f: FileId)
      requires Valid() && f < |files| && files[f].Live?
      modifies this`files, this`held
      ensures held == old(held).(files := old(held).files + multiset{f})
      ensures files == old(files)[f := old(files)[f].(refcount := old(files)[f].refcount + 1)]
      ensures Valid()
    {
      hide VnodesBalance, FilesBalance;
      var x := files[f].(refcount := files[f].refcount + 1);
      FileBalance(Now(), held, f, x, held.files + multiset{f});
      files := files[f := x];
      held := held.(files := held.files + multiset{f});
    }

    /** Drops a reference; the last one frees the file and puts its vnode. */
    method Fput(f: FileId)
      requires Valid() && f in held.files
      modifies this`files, this`counts, this`held
      ensures held == old(held).(files := old(held).files - multiset{f})
      ensures f < |old(files)| && old(files)[f].Live?
      ensures files == old(files)[f := if old(files)[f].refcount == 1 then Free
        else old(files)[f].(refcount := old(files)[f].refcount - 1)]
      ensures Valid()
    {
      hide VnodesBalance, FilesBalance;
      HeldIsLive(Now(), held, f);
      if files[f].refcount == 1 {
        var v := files[f].vnode;
        FreeBalance(Now(), held, f);
        held := Held(held.vnodes + multiset{v}, held.files - multiset{f});
        files := files[f := Free];
        Vput(v);
        assert old(held).vnodes + multiset{v} - multiset{v} == old(held).vnodes;
      } else {
        var x := files[f].(refcount := files[f].refcount - 1);
        FileBalance(Now(), held, f, x, held.files - multiset{f});
        files := files[f := x];
        held := held.(files := held.files - multiset{f});
      }
    }

    /** One step of a path. */
    method NamevLookup(dir: VnodeId, name: string) returns (r: int, v: VnodeId)
      requires Valid()
      modifies this`counts, this`held
      ensures var a := Walk(lookup, kind, dir, [name]); Says(a, r, v) && held == With(old(held), a)
      ensures Valid()
    {
      v := 0;
      if !kind(dir).Dir? {
        return -ENOTDIR, v;
      }
      match lookup(dir, name) {
        case Err(e) =>
          r := e;
          r := -r;
        case Ok(w) =>
          Vget(w);
          r, v := 0, w;
      }
    }

    /** One step down a path: the reference moves from the directory to what is found in it. */
    method Enter(v: VnodeId, name: string, ghost names: seq<string>, ghost before: Held) returns (r: int, next: VnodeId)
      requires Valid() && names != [] && names[0] == name && held == With(before, Ok(v))
      modifies this`counts, this`held
      ensures r <= 0
      ensures r < 0 ==>
        Says(Walk(lookup, kind, v, names), r, next) && Walk(lookup, kind, v, names).Err? && held == before
      ensures r == 0 ==>
        Walk(lookup, kind, v, names) == Walk(lookup, kind, next, names[1..]) && held == With(before, Ok(next))
      ensures Valid()
    {
      hide Balanced, Walk;
      WalkOne(lookup, kind, v, names);
      r, next := NamevLookup(v, name);
      Dropped(before, v, next);
      Vput(v);
    }

    /** The directory that holds the last name of a path, with a reference, and that name. */
    method NamevDir(base: VnodeId, path: string) returns (r: int, v: VnodeId, name: Name)
      requires Valid() && base in counts
      modifies this`counts, this`held
      ensures path == "" ==> r == -EINVAL && held == old(held)
      ensures path != "" ==>
        var a := ParentOf(lookup, kind, Start(root, base, path), path); Says(a, r, v) && held == With(old(held), a)
      ensures r == 0 ==> Denotes(name, path)
      ensures Valid()
    {
      hide Balanced, Names, Walk, ParentOf, Denotes, AllButLast, EndsAs;
      name, v := Dot, 0;
      if path == "" {
        return -EINVAL, v, name;
      }
      RootIsThere(Now(), held);
      var search := 0;
      v := base;
      if path[0] == '/' {
        v, search := root, 1;
      }
      StartNames(path, search);
      Vref(v);
      ghost var left := Names(path, search);
      ghost var a := Walk(lookup, kind, v, AllButLast(left));
      ParentIs(lookup, kind, v, path);
      var token, len := 0, 0;
      while true
        invariant 0 <= search <= |path| && left == Names(path, search) && EndsAs(left, path)
        invariant Walk(lookup, kind, v, AllButLast(left)) == a
        invariant held == With(old(held), Ok(v))
        invariant Valid()
        decreases |path| - search
      {
        var rest;
        token, len, rest := NextName(path, search);
        if len == 0 || rest < 0 || rest == |path| {
          break;
        }
        AllButLastStep(left);
        EndsTail(left, path);
        var next;
        r, next := Enter(v, path[token..token + len], AllButLast(left), old(held));
        if r < 0 {
          return r, v, name;
        }
        v := next;
        search := rest;
        left := left[1..];
      }
      r := 0;
      WalkNone(lookup, kind, v, left);
      if len != 0 {
        name := Part(token, len);
        LastDenotes(path, token, len, left);
      } else {
        DotDenotes(path, left);
      }
    }

    /** Opens what a path names, or asks the file system to create it. */
    method NamevOpen(base: VnodeId, path: string, creat: bool, made: Answer, after: Lookup) returns (r: int, v: VnodeId)
      requires Valid() && base in counts
      modifies this`counts, this`held, this`lookup
      ensures var o := Opened(old(lookup), kind, Start(root, base, path), path, creat);
        && Says(Result(o, made), r, v) && held == With(old(held), Result(o, made))
        && lookup == if o.Creates? then after else old(lookup)
      ensures Valid()
    {
      hide Balanced, ParentOf, Denotes, BaseName, Slashed;
      var dir, name;
      r, dir, name := NamevDir(base, path);
      v := 0;
      if r < 0 {
        return;
      }
      NameFacts(name, path);
      Dropped(old(held), dir, dir);
      if !kind(dir).Dir? {
        Vput(dir);
        return -ENOTDIR, v;
      }
      if SlashAfter(name, path) && creat {
        Vput(dir);
        return -EINVAL, v;
      }
      if |Text(name, path)| > NAME_LEN {
        Vput(dir);
        return -ENAMETOOLONG, v;
      }
      r, v := OpenIn(dir, Text(name, path), SlashAfter(name, path), creat, made, after, old(held));
    }

    /** The last step of a path. */
    method OpenIn(dir: VnodeId, name: string, slashed: bool, creat: bool, made: Answer, after: Lookup,
                  ghost before: Held)
      returns (r: int, v: VnodeId)
      requires Valid() && kind(dir).Dir? && held == With(before, Ok(dir))
      modifies this`counts, this`held, this`lookup
      ensures var o := LastStep(old(lookup), kind, dir, name, slashed, creat);
        && Says(Result(o, made), r, v) && held == With(before, Result(o, made))
        && lookup == if o.Creates? then after else old(lookup)
      ensures Valid()
    {
      hide Balanced, With, Without, Has;
      WalkName(lookup, kind, dir, name);
      NoneTaken(held, lookup(dir, name));
      NoneTaken(before, lookup(dir, name));
      NoneTaken(before, made);
      NoneTaken(held, made);
      NoneTaken(before, Err(ENOTDIR));
      r, v := NamevLookup(dir, name);
      if r == 0 {
        Dropped(before, dir, v);
        Vput(dir);
        if kind(v).Reg? && slashed {
          Vput(v);
          return -ENOTDIR, v;
        }
        return;
      }
      if creat && r == -ENOENT {
        r, v := Mknod(made, after);
      }
      Dropped(before, dir, v);
      Vput(dir);
    }

    /** A file system is asked to change a directory and to hand out a new vnode in it. */
    method Mknod(made: Answer, after: Lookup) returns (r: int, v: VnodeId)
      requires Valid()
      modifies this`counts, this`held, this`lookup
      ensures Says(made, r, v) && held == With(old(held), made) && lookup == after
      ensures Valid()
    {
      hide Balanced;
      lookup := after;
      v := 0;
      match made {
        case Err(e) =>
          r := e;
          r := -r;
        case Ok(w) =>
          Vget(w);
          r, v := 0, w;
      }
    }

    // ------------------------------------------------------------- calls on a path

    /** The current directory of the running process is in memory. */
    method Cwd() returns (v: VnodeId)
      requires Valid() && Idle()
      ensures Some(v) == procs[curproc].cwd && v in counts
    {
      CwdIsThere(Now(), held, curproc);
      v := procs[curproc].cwd.id;
    }

    ghost function Seen(lookup: Lookup, path: string, creat: bool): Outcome
      requires curproc < |procs| && procs[curproc].cwd.Some?
      reads this`curproc, this`procs
    {
      Opened(lookup, kind, Start(root, procs[curproc].cwd.id, path), path, creat)
    }

    ghost function ParentSeen(path: string): Answer
      requires curproc < |procs| && procs[curproc].cwd.Some?
      reads this`curproc, this`procs, this`lookup
    {
      ParentOf(lookup, kind, Start(root, procs[curproc].cwd.id, path), path)
    }

    method DoStat(path: string, answer: int) returns (r: int)
      requires Valid() && Idle()
      modifies this`counts, this`held, this`lookup
      ensures var o := old(Seen(lookup, path, false)); r == if o.Fails? then Result(o, Err(ENOENT)).Code() else answer
      ensures counts == old(counts) && lookup == old(lookup) && Valid() && Idle()
    {
      hide Balanced, With, Without, Has;
      ghost var before := Now();
      var cwd := Cwd();
      var v;
      r, v := NamevOpen(cwd, path, false, Err(ENOENT), lookup);
      NoneTaken(NOTHING, Result(Opened(lookup, kind, Start(root, cwd, path), path, false), Err(ENOENT)));
      if r >= 0 {
        r := answer;
        Dropped(NOTHING, v, v);
        Vput(v);
      }
      CountsFollow(before, Now(), NOTHING);
    }

    method DoMknod(path: string, special: bool, made: Answer, after: Lookup) returns (r: int)
      requires Valid() && Idle()
      modifies this`counts, this`held, this`lookup
      ensures if !special then r == -EINVAL && lookup == old(lookup)
        else
          var o := old(Seen(lookup, path, true));
          r == Result(o, made).Code() && lookup == if o.Creates? then after else old(lookup)
      ensures counts == old(counts) && Valid() && Idle()
    {
      hide Balanced, With, Without, Has;
      if !special {
        return -EINVAL;
      }
      ghost var before := Now();
      var cwd := Cwd();
      NoneTaken(NOTHING, Result(Opened(lookup, kind, Start(root, cwd, path), path, true), made));
      var v;
      r, v := NamevOpen(cwd, path, true, made, after);
      if r >= 0 {
        Dropped(NOTHING, v, v);
        Vput(v);
      }
      CountsFollow(before, Now(), NOTHING);
    }

    /** The directory of a path's last name, from the current directory. */
    method Parent(path: string) returns (r: int, dir: VnodeId, name: Name)
      requires Valid() && Idle()
      modifies this`counts, this`held
      ensures r <= 0 && (r < 0 ==> held == NOTHING && counts == old(counts))
      ensures r < 0 ==> r == if path == "" then -EINVAL else old(ParentSeen(path)).Code()
      ensures r == 0 ==> path != "" && old(ParentSeen(path)) == Ok(dir) && held == With(NOTHING, Ok(dir))
      ensures r == 0 ==> Denotes(name, path) && Text(name, path) == BaseName(path)
      ensures Valid()
    {
      hide Balanced, With, Without, Has, Denotes, BaseName, Slashed, ParentOf;
      ghost var before := Now();
      var cwd := Cwd();
      NoneTaken(NOTHING, ParentSeen(path));
      r, dir, name := NamevDir(cwd, path);
      if r < 0 {
        CountsFollow(before, Now(), NOTHING);
      } else {
        NameFacts(name, path);
      }
    }

    method DoMkdir(path: string, made: Answer, after: Lookup) returns (r: int)
      requires Valid() && Idle()
      modifies this`counts, this`held, this`lookup
      ensures path == "" ==> r == -EINVAL
      ensures path != "" ==> r == old(MkdirCode(lookup, kind, ParentSeen(path), BaseName(path), made))
      ensures lookup == old(lookup) || lookup == after
      ensures counts == old(counts) && Valid() && Idle()
    {
      hide Balanced, With, Without, Has, Denotes, BaseName, Slashed, ParentOf, Walk;
      ghost var before := Now();
      var dir, name;
      r, dir, name := Parent(path);
      if r < 0 {
        return;
      }
      if |Text(name, path)| > NAME_LEN {
        r := -ENAMETOOLONG;
      } else {
        r := MakeIn(dir, Text(name, path), made, after);
      }
      Dropped(NOTHING, dir, dir);
      Vput(dir);
      CountsFollow(before, Now(), NOTHING);
    }

    method MakeIn(dir: VnodeId, name: string, made: Answer, after: Lookup) returns (r: int)
      requires Valid() && held == With(NOTHING, Ok(dir))
      modifies this`counts, this`held, this`lookup
      ensures r == MadeCode(Walk(old(lookup), kind, dir, [name]), made)
      ensures lookup == old(lookup) || lookup == after
      ensures held == old(held) && Valid()
    {
      hide Balanced, With, Without, Has, Walk;
      NoneTaken(With(NOTHING, Ok(dir)), Walk(lookup, kind, dir, [name]));
      WalkDir(lookup, kind, dir, name);
      var v;
      r, v := NamevLookup(dir, name);
      Dropped(NOTHING, dir, v);
      if r == 0 {
        Vput(v);
        return -EEXIST;
      }
      if r != -ENOENT {
        return;
      }
      if !kind(dir).Dir? {
        return -ENOTDIR;
      }
      NoneTaken(With(NOTHING, Ok(dir)), made);
      r, v := Mknod(made, after);
      Dropped(NOTHING, dir, v);
      if r >= 0 {
        Vput(v);
      }
    }

    method DoRmdir(path: string, answer: int, after: Lookup) returns (r: int)
      requires Valid() && Idle()
      modifies this`counts, this`held, this`lookup
      ensures path == "" ==> r == -EINVAL
      ensures path != "" && old(ParentSeen(path)).Err? ==> r == old(ParentSeen(path)).Code()
      ensures path != "" && old(ParentSeen(path)).Ok? ==>
        r == RmdirCode(kind(old(ParentSeen(path)).vnode), path, answer)
      ensures lookup == old(lookup) || lookup == after
      ensures counts == old(counts) && Valid() && Idle()
    {
      hide Balanced, With, Without, Has, BaseName, Slashed, ParentOf;
      ghost var before := Now();
      var dir, name;
      r, dir, name := Parent(path);
      if r < 0 {
        return;
      }
      RestFacts(name, path);
      if !kind(dir).Dir? {
        r := -ENOTDIR;
      } else if Rest(name, path) == "." {
        r := -EINVAL;
      } else if Rest(name, path) == ".." {
        r := -ENOTEMPTY;
      } else if |Text(name, path)| > NAME_LEN {
        r := -ENAMETOOLONG;
      } else {
        r := answer;
        lookup := after;
      }
      Dropped(NOTHING, dir, dir);
      Vput(dir);
      CountsFollow(before, Now(), NOTHING);
    }

    method DoUnlink(path: string, answer: int, after: Lookup) returns (r: int)
      requires Valid() && Idle()
      modifies this`counts, this`held, this`lookup
      ensures path == "" ==> r == -EINVAL
      ensures path != "" ==> r == old(UnlinkCode(lookup, kind, ParentSeen(path), BaseName(path), answer))
      ensures lookup == old(lookup) || lookup == after
      ensures counts == old(counts) && Valid() && Idle()
    {
      hide Balanced, With, Without, Has, Denotes, BaseName, Slashed, ParentOf, Walk;
      ghost var before := Now();
      var dir, name;
      r, dir, name := Parent(path);
      if r < 0 {
        return;
      }
      if |Text(name, path)| > NAME_LEN {
        r := -ENAMETOOLONG;
      } else if !kind(dir).Dir? {
        WalkDir(lookup, kind, dir, Text(name, path));
        r := -ENOTDIR;
      } else {
        r := UnlinkIn(dir, Text(name, path), answer, after);
      }
      Dropped(NOTHING, dir, dir);
      Vput(dir);
      CountsFollow(before, Now(), NOTHING);
    }

    method UnlinkIn(dir: VnodeId, name: string, answer: int, after: Lookup) returns (r: int)
      requires Valid() && held == With(NOTHING, Ok(dir))
      modifies this`counts, this`held, this`lookup
      ensures var a := Walk(old(lookup), kind, dir, [name]);
        r == if a.Err? then a.Code() else if kind(a.vnode).Dir? then -EPERM else answer
      ensures lookup == old(lookup) || lookup == after
      ensures held == old(held) && Valid()
    {
      hide Balanced, With, Without, Has, Walk;
      NoneTaken(With(NOTHING, Ok(dir)), Walk(lookup, kind, dir, [name]));
      var v;
      r, v := NamevLookup(dir, name);
      if r < 0 {
        return;
      }
      if kind(v).Dir? {
        r := -EPERM;
      } else {
        r := answer;
        lookup := after;
      }
      Dropped(NOTHING, dir, v);
      Vput(v);
    }

    method DoLink(oldpath: string, newpath: string, answer: int, after: Lookup) returns (r: int)
      requires Valid() && Idle()
      modifies this`counts, this`held, this`lookup
      ensures r == old(LinkCode(kind, Seen(lookup, oldpath, false), newpath, ParentSeen(newpath), answer))
      ensures lookup == old(lookup) || lookup == after
      ensures counts == old(counts) && Valid() && Idle()
    {
      hide Balanced, With, Without, Has, Denotes, BaseName, Slashed, ParentOf;
      ghost var before := Now();
      var cwd := Cwd();
      ghost var a := Result(Seen(lookup, oldpath, false), Err(ENOENT));
      NoneTaken(NOTHING, a);
      var v;
      r, v := NamevOpen(cwd, oldpath, false, Err(ENOENT), lookup);
      if r < 0 {
        CountsFollow(before, Now(), NOTHING);
        return;
      }
      Dropped(NOTHING, v, v);
      if kind(v).Dir? {
        r := -EPERM;
      } else {
        HeldVnodeIsThere(Now(), held, v);
        r := LinkIn(v, newpath, answer, after);
      }
      Vput(v);
      CountsFollow(before, Now(), NOTHING);
    }

    method LinkIn(v: VnodeId, newpath: string, answer: int, after: Lookup) returns (r: int)
      requires Valid() && held == With(NOTHING, Ok(v)) && procs[curproc].cwd.Some?
      modifies this`counts, this`held, this`lookup
      ensures r == old(LinkInCode(kind, newpath, ParentSeen(newpath), answer))
      ensures lookup == old(lookup) || lookup == after
      ensures held == old(held) && Valid()
    {
      hide Balanced, With, Without, Has, Denotes, BaseName, Slashed, ParentOf;
      CwdIsThere(Now(), held, curproc);
      var dir, name;
      NoneTaken(held, ParentSeen(newpath));
      r, dir, name := NamevDir(procs[curproc].cwd.id, newpath);
      if r < 0 {
        return;
      }
      NameFacts(name, newpath);
      if !kind(dir).Dir? {
        r := -ENOTDIR;
      } else if |Text(name, newpath)| > NAME_LEN {
        r := -ENAMETOOLONG;
      } else {
        r := answer;
        lookup := after;
      }
      Dropped(NOTHING, v, dir);
      Vput(dir);
    }

    method DoRename(oldpath: string, newpath: string, answer: int, after: Lookup) returns (r: int)
      requires Valid() && Idle()
      modifies this`counts, this`held, this`lookup
      ensures oldpath == "" ==> r == -EINVAL
      ensures oldpath != "" ==>
        r == old(RenameCode(kind, ParentSeen(oldpath), oldpath, ParentSeen(newpath), newpath, answer))
      ensures lookup == old(lookup) || lookup == after
      ensures counts == old(counts) && Valid() && Idle()
    {
      hide Balanced, With, Without, Has, Denotes, BaseName, Slashed, ParentOf;
      ghost var before := Now();
      var from, oldname;
      r, from, oldname := Parent(oldpath);
      if r < 0 {
        return;
      }
      r := RenameIn(from, Text(oldname, oldpath), newpath, answer, after);
      CountsFollow(before, Now(), NOTHING);
    }

    method RenameIn(from: VnodeId, oldname: string, newpath: string, answer: int, after: Lookup) returns (r: int)
      requires Valid() && held == With(NOTHING, Ok(from)) && procs[curproc].cwd.Some?
      modifies this`counts, this`held, this`lookup
      ensures r == old(RenameInCode(kind, from, oldname, ParentSeen(newpath), newpath, answer))
      ensures lookup == old(lookup) || lookup == after
      ensures held == NOTHING && Valid()
    {
      hide Balanced, With, Without, Has, Denotes, BaseName, Slashed, ParentOf;
      CwdIsThere(Now(), held, curproc);
      NoneTaken(held, ParentSeen(newpath));
      var to, newname;
      r, to, newname := NamevDir(procs[curproc].cwd.id, newpath);
      Dropped(NOTHING, from, to);
      if r < 0 {
        Vput(from);
        return;
      }
      NameFacts(newname, newpath);
      if |oldname| > NAME_LEN || |Text(newname, newpath)| > NAME_LEN {
        r := -ENAMETOOLONG;
      } else if !kind(from).Dir? || !kind(to).Dir? {
        r := -ENOTDIR;
      } else {
        r := answer;
        lookup := after;
      }
      Vput(from);
      Vput(to);
    }

    /** Moves the reference of the current directory. */
    method DoChdir(path: string) returns (r: int)
      requires Valid() && Idle()
      modifies this`counts, this`held, this`lookup, this`procs
      ensures r == old(ChdirCode(kind, Seen(lookup, path, false)))
      ensures lookup == old(lookup)
      ensures r < 0 ==> procs == old(procs) && counts == old(counts)
      ensures r == 0 ==>
        && old(Seen(lookup, path, false)).Found?
        && procs == WithCwd(old(procs), curproc, Some(old(Seen(lookup, path, false)).vnode))
      ensures Valid() && Idle()
    {
      hide Balanced, With, Without, Has, ParentOf;
      ghost var before := Now();
      var cwd := Cwd();
      ghost var a := Result(Seen(lookup, path, false), Err(ENOENT));
      NoneTaken(NOTHING, a);
      var v;
      r, v := NamevOpen(cwd, path, false, Err(ENOENT), lookup);
      if r != 0 {
        CountsFollow(before, Now(), NOTHING);
        return;
      }
      Dropped(NOTHING, v, v);
      if !kind(v).Dir? {
        Vput(v);
        CountsFollow(before, Now(), NOTHING);
        return -ENOTDIR;
      }
      CwdOut();
      CwdIn(v);
      Vput(v);
    }

    /** Puts the current directory. */
    method CwdOut()
      requires Valid() && procs[curproc].cwd.Some?
      modifies this`counts, this`held, this`procs
      ensures procs == WithCwd(old(procs), curproc, None) && held == old(held)
      ensures Valid()
    {
      hide VnodesBalance, FilesBalance;
      var v := procs[curproc].cwd.id;
      var held' := With(held, Ok(v));
      CwdBalance(Now(), held, curproc, None, held'.vnodes);
      procs := WithCwd(procs, curproc, None);
      Dropped(held, v, v);
      held := held';
      Vput(v);
    }

    /** Sets the current directory, with a reference of its own. */
    method CwdIn(v: VnodeId)
      requires Valid() && procs[curproc].cwd.None? && Has(held, v)
      modifies this`counts, this`held, this`procs
      ensures procs == WithCwd(old(procs), curproc, Some(v)) && held == old(held)
      ensures Valid()
    {
      hide VnodesBalance, FilesBalance;
      HeldVnodeIsThere(Now(), held, v);
      Dropped(held, v, v);
      Vref(v);
      CwdBalance(Now(), held, curproc, Some(v), old(held).vnodes);
      procs := WithCwd(procs, curproc, Some(v));
      held := old(held);
    }

    // ------------------------------------------------------- calls on a descriptor

    /** The file behind a descriptor, with a reference. */
    method Fget(fd: int) returns (f: Maybe)
      requires Valid() && Idle()
      modifies this`files, this`held
      ensures f == old(FileAt(fd))
      ensures f.None? ==> files == old(files) && held == NOTHING
      ensures f.Some? ==> f.id < |old(files)| && old(files)[f.id].Live? && held == OneFile(f.id)
      ensures f.Some? ==>
        && files == old(files)[f.id := old(files)[f.id].(refcount := old(files)[f.id].refcount + 1)]
        && old(files)[f.id].refcount > 0
      ensures Valid()
    {
      hide VnodesBalance;
      if fd < 0 || fd >= NFILES {
        return None;
      }
      f := procs[curproc].slots[fd];
      if f.Some? {
        SlotIsLive(Now(), held, curproc, fd);
        Fref(f.id);
      }
    }

    ghost function FileAt(fd: int): Maybe
      requires curproc < |procs|
      reads this`curproc, this`procs
    {
      if 0 <= fd < |procs[curproc].slots| then procs[curproc].slots[fd] else None
    }

    /** A call on an open file is over: its position may have moved, its count is what it was. */
    method Finish(f: FileId, pos: int)
      requires Valid() && held == OneFile(f) && f < |files| && files[f].Live? && files[f].refcount > 1
      modifies this`files, this`held, this`counts
      ensures files == old(files)[f := old(files)[f].(refcount := old(files)[f].refcount - 1, pos := pos)]
      ensures held == NOTHING && Valid()
    {
      hide VnodesBalance, FilesBalance;
      var x := files[f].(pos := pos);
      FileBalance(Now(), held, f, x, held.files);
      files := files[f := x];
      OneFileGone(f);
      Fput(f);
    }

    /** `answer` is what the file system's read returned; errors move the position as well. */
    method DoRead(fd: int, answer: int) returns (r: int)
      requires Valid() && Idle()
      modifies this`files, this`held, this`counts
      ensures r == old(ReadCode(kind, files, FileAt(fd), answer))
      ensures files == old(ReadFiles(kind, files, FileAt(fd), answer)) && counts == old(counts)
      ensures Valid() && Idle()
    {
      hide Balanced;
      ghost var before := Now();
      var f := Fget(fd);
      if f.None? {
        CountsFollow(before, Now(), NOTHING);
        return -EBADF;
      }
      var pos := files[f.id].pos;
      if !files[f.id].mode.read {
        r := -EBADF;
      } else if kind(files[f.id].vnode).Dir? {
        r := -EISDIR;
      } else {
        r := answer;
        pos := pos + answer;
      }
      Finish(f.id, pos);
      SameCounts(before, Now());
    }

    /** Appending starts at the end of the file, `end`. */
    method DoWrite(fd: int, end: nat, answer: int) returns (r: int)
      requires Valid() && Idle()
      modifies this`files, this`held, this`counts
      ensures var f := old(FileAt(fd)); f.Some? ==> f.id < |old(files)| && old(files)[f.id].Live?
      ensures var f := old(FileAt(fd));
        if f.None? || !old(files)[f.id].mode.write then r == -EBADF && files == old(files)
        else
          var from := if old(files)[f.id].mode.append then end else old(files)[f.id].pos;
          r == answer && files == old(files)[f.id := old(files)[f.id].(pos := answer + from)]
      ensures counts == old(counts)
      ensures Valid() && Idle()
    {
      hide Balanced;
      ghost var before := Now();
      var f := Fget(fd);
      if f.None? {
        CountsFollow(before, Now(), NOTHING);
        return -EBADF;
      }
      var pos := files[f.id].pos;
      if !files[f.id].mode.write {
        r := -EBADF;
      } else {
        if files[f.id].mode.append {
          pos := end;
        }
        r := answer;
        pos := pos + answer;
      }
      Finish(f.id, pos);
      SameCounts(before, Now());
    }

    method DoGetdent(fd: int, answer: int) returns (r: int)
      requires Valid() && Idle()
      modifies this`files, this`held, this`counts
      ensures var f := old(FileAt(fd)); f.Some? ==> f.id < |old(files)| && old(files)[f.id].Live?
      ensures var f := old(FileAt(fd));
        if f.None? then r == -EBADF && files == old(files)
        else if !kind(old(files)[f.id].vnode).Dir? then r == -ENOTDIR && files == old(files)
        else
          && r == (if answer == 0 then 0 else DIRENT_SIZE)
          && files == old(files)[f.id := old(files)[f.id].(pos := old(files)[f.id].pos + answer)]
      ensures counts == old(counts)
      ensures Valid() && Idle()
    {
      hide Balanced;
      ghost var before := Now();
      var f := Fget(fd);
      if f.None? {
        CountsFollow(before, Now(), NOTHING);
        return -EBADF;
      }
      var pos := files[f.id].pos;
      if !kind(files[f.id].vnode).Dir? {
        r := -ENOTDIR;
      } else {
        r := if answer == 0 then 0 else DIRENT_SIZE;
        pos := pos + answer;
      }
      Finish(f.id, pos);
      SameCounts(before, Now());
    }

    method DoLseek(fd: int, offset: int, whence: int, end: nat) returns (r: int)
      requires Valid() && Idle()
      modifies this`files, this`held, this`counts
      ensures var f := old(FileAt(fd)); f.Some? ==> f.id < |old(files)| && old(files)[f.id].Live?
      ensures var f := old(FileAt(fd));
        if f.None? then r == -EBADF && files == old(files)
        else var p := SeekTarget(old(files)[f.id].pos, offset, whence, end);
          if p < 0 then r == -EINVAL && files == old(files)
          else r == p && files == old(files)[f.id := old(files)[f.id].(pos := p)]
      ensures counts == old(counts)
      ensures Valid() && Idle()
    {
      hide Balanced;
      ghost var before := Now();
      var f := Fget(fd);
      if f.None? {
        CountsFollow(before, Now(), NOTHING);
        return -EBADF;
      }
      var pos := files[f.id].pos;
      r := -EINVAL;
      if 0 <= whence <= 2 {
        var p := if whence == SEEK_SET then offset else if whence == SEEK_CUR then pos + offset else end + offset;
        if p >= 0 {
          r, pos := p, p;
        }
      }
      Finish(f.id, pos);
      SameCounts(before, Now());
    }

    /** The least free descriptor. */
    method GetEmptyFd() returns (r: int, fd: int)
      requires Valid()
      ensures r == -EMFILE || r == 0
      ensures r == 0 ==> 0 <= fd < NFILES == |procs[curproc].slots| && procs[curproc].slots[fd].None?
      ensures r == 0 ==> forall k :: 0 <= k < fd ==> procs[curproc].slots[k].Some?
      ensures r < 0 ==>
        fd == -1 && |procs[curproc].slots| == NFILES && forall k :: 0 <= k < NFILES ==> procs[curproc].slots[k].Some?
    {
      fd := 0;
      while fd < NFILES
        invariant 0 <= fd <= NFILES && |procs[curproc].slots| == NFILES
        invariant forall k :: 0 <= k < fd ==> procs[curproc].slots[k].Some?
      {
        if procs[curproc].slots[fd].None? {
          return 0, fd;
        }
        fd := fd + 1;
      }
      return -EMFILE, -1;
    }

    /** Takes the file out of a descriptor and drops the descriptor's reference. */
    method FputSlot(fd: nat)
      requires Valid() && fd < |procs[curproc].slots| && procs[curproc].slots[fd].Some?
      modifies this`files, this`held, this`counts, this`procs
      ensures procs == WithSlot(old(procs), curproc, fd, None) && held == old(held)
      ensures var f := old(procs)[curproc].slots[fd].id;
        f < |old(files)| && old(files)[f].Live? && files == old(files)[f := Less(old(files)[f])]
      ensures Valid()
    {
      hide VnodesBalance, FilesBalance;
      var f := procs[curproc].slots[fd].id;
      ghost var held' := held.(files := held.files + multiset{f});
      SlotBalance(Now(), held, curproc, fd, None, held'.files);
      procs := WithSlot(procs, curproc, fd, None);
      held := held';
      Fput(f);
      assert old(held).files + multiset{f} - multiset{f} == old(held).files;
    }

    /** Gives a free descriptor a reference of its own to a file that is in hand. */
    method FillSlot(fd: nat, f: FileId)
      requires Valid() && fd < |procs[curproc].slots| && procs[curproc].slots[fd].None? && f in held.files
      modifies this`files, this`held, this`procs
      ensures procs == WithSlot(old(procs), curproc, fd, Some(f)) && held == old(held)
      ensures
        && f < |old(files)| && old(files)[f].Live?
        && files == old(files)[f := old(files)[f].(refcount := old(files)[f].refcount + 1)]
      ensures Valid()
    {
      hide VnodesBalance, FilesBalance;
      HeldIsLive(Now(), held, f);
      Fref(f);
      SlotBalance(Now(), held, curproc, fd, Some(f), old(held).files);
      procs := WithSlot(procs, curproc, fd, Some(f));
      held := old(held);
    }

    method DoClose(fd: int) returns (r: int)
      requires Valid() && Idle()
      modifies this`files, this`held, this`counts, this`procs
      ensures r == if old(FileAt(fd)).None? then -EBADF else 0
      ensures r < 0 ==> files == old(files) && procs == old(procs) && counts == old(counts)
      ensures r == 0 ==> 0 <= fd < |old(procs)[curproc].slots| && procs == WithSlot(old(procs), curproc, fd, None)
      ensures r == 0 ==>
        var f := old(FileAt(fd)).id;
        f < |old(files)| && old(files)[f].Live? && files == old(files)[f := Less(old(files)[f])]
      ensures Valid() && Idle()
    {
      hide VnodesBalance;
      if fd < 0 || fd >= NFILES || procs[curproc].slots[fd].None? {
        return -EBADF;
      }
      FputSlot(fd);
      r := 0;
    }

    /** A second descriptor on the same file. */
    method DoDup(fd: int) returns (r: int)
      requires Valid() && Idle()
      modifies this`files, this`held, this`counts, this`procs
      ensures old(FileAt(fd)).None? <==> r == -EBADF
      ensures r < 0 ==> r in {-EBADF, -EMFILE} && files == old(files) && procs == old(procs) && counts == old(counts)
      ensures r == -EMFILE ==> forall k :: 0 <= k < |procs[curproc].slots| ==> procs[curproc].slots[k].Some?
      ensures r >= 0 ==>
        && r < |old(procs)[curproc].slots| && old(procs)[curproc].slots[r].None?
        && forall k :: 0 <= k < r ==> old(procs)[curproc].slots[k].Some?
      ensures r >= 0 ==> procs == WithSlot(old(procs), curproc, r, old(FileAt(fd)))
      ensures r >= 0 ==>
        var f := old(FileAt(fd)).id;
        && f < |old(files)| && old(files)[f].Live?
        && files == old(files)[f := old(files)[f].(refcount := old(files)[f].refcount + 1)]
      ensures Valid() && Idle()
    {
      hide VnodesBalance, FilesBalance;
      ghost var before := Now();
      var f := Fget(fd);
      if f.None? {
        CountsFollow(before, Now(), NOTHING);
        return -EBADF;
      }
      var nfd;
      r, nfd := GetEmptyFd();
      OneFileGone(f.id);
      if r < 0 {
        Fput(f.id);
        SameCounts(before, Now());
        return;
      }
      FillSlot(nfd, f.id);
      Fput(f.id);
      r := nfd;
    }

    /** Makes `nfd` a descriptor of the same file, closing what it was before. */
    method DoDup2(ofd: int, nfd: int) returns (r: int)
      requires Valid() && Idle()
      modifies this`files, this`held, this`counts, this`procs
      ensures r == -EBADF || r == nfd
      ensures r == -EBADF <==> old(FileAt(ofd)).None? || !(0 <= nfd < NFILES)
      ensures r == -EBADF || ofd == nfd ==> files == old(files) && procs == old(procs) && counts == old(counts)
      ensures r >= 0 ==>
        nfd < |old(procs)[curproc].slots| && procs == WithSlot(old(procs), curproc, nfd, old(FileAt(ofd)))
      ensures r >= 0 ==> files == Dup2Files(old(files), old(FileAt(ofd)), old(FileAt(nfd)))
      ensures Valid() && Idle()
    {
      hide VnodesBalance, FilesBalance;
      TableSize(Now(), held, curproc);
      if ofd < 0 || ofd >= NFILES || nfd < 0 || nfd >= NFILES {
        return -EBADF;
      }
      ghost var before := Now();
      var f := Fget(ofd);
      if f.None? {
        CountsFollow(before, Now(), NOTHING);
        return -EBADF;
      }
      OneFileGone(f.id);
      if ofd == nfd {
        Fput(f.id);
        SameCounts(before, Now());
        SlotAgain(procs, curproc, nfd, f);
        return nfd;
      }
      ghost var g := procs[curproc].slots[nfd];
      Replace(nfd, f.id);
      Dup2Ends(old(files), f.id, g);
      r := nfd;
    }

    /** Puts a file that is in hand into a descriptor, in place of what was there. */
    method Replace(nfd: nat, f: FileId)
      requires
        && Valid() && held == OneFile(f) && nfd < |procs[curproc].slots| && f < |files| && files[f].Live?
        && files[f].refcount > 1
      modifies this`files, this`held, this`counts, this`procs
      ensures procs == WithSlot(old(procs), curproc, nfd, Some(f)) && held == NOTHING
      ensures files == Replaced(old(files), f, old(procs)[curproc].slots[nfd])
      ensures Valid()
    {
      hide VnodesBalance, FilesBalance;
      OneFileGone(f);
      SlotAgain(procs, curproc, nfd, Some(f));
      if procs[curproc].slots[nfd].Some? {
        FputSlot(nfd);
      }
      FillSlot(nfd, f);
      Fput(f);
    }

    /** A new open file in a free descriptor; `room` and `at` are what the slab allocator answers. */
    method Fcreate(fd: nat, v: VnodeId, mode: Mode, room: bool, at: nat) returns (f: Maybe)
      requires Valid() && fd < |procs[curproc].slots| && procs[curproc].slots[fd].None? && Has(held, v)
      requires at <= |files| && (at < |files| ==> files[at].Free?)
      modifies this`files, this`held, this`counts, this`procs
      ensures f == if room then Some(at) else None
      ensures f.None? ==> unchanged(this)
      ensures f.Some? ==>
        && procs == WithSlot(old(procs), curproc, fd, f) && files == WithFile(old(files), at, Live(v, mode, 1, 0))
        && held == old(held)
      ensures Valid()
    {
      hide VnodesBalance, FilesBalance;
      if !room {
        return None;
      }
      HeldVnodeIsThere(Now(), held, v);
      Vref(v);
      CreateBalance(Now(), old(held), at, v, mode, curproc, fd);
      files := WithFile(files, at, Live(v, mode, 1, 0));
      procs := WithSlot(procs, curproc, fd, Some(at));
      held := old(held);
      f := Some(at);
    }

    method DoOpen(path: string, flags: Flags, made: Answer, after: Lookup, room: bool, at: nat) returns (r: int)
      requires Valid() && Idle() && at <= |files| && (at < |files| ==> files[at].Free?)
      modifies this
      ensures curproc == old(curproc)
      ensures r < 0 ==> files == old(files) && procs == old(procs) && counts == old(counts)
      ensures var a := Result(old(Seen(lookup, path, flags.creat)), made); r >= 0 <==>
        && !(flags.wronly && flags.rdwr) && !Full(old(procs)[curproc].slots) && a.Ok?
        && Openable(kind(a.vnode), flags) == 0 && room
      ensures r >= 0 ==> LeastFree(old(procs)[curproc].slots, r) && procs == WithSlot(old(procs), curproc, r, Some(at))
      ensures r >= 0 ==>
        var a := Result(old(Seen(lookup, path, flags.creat)), made);
        a.Ok? && files == WithFile(old(files), at, Live(a.vnode, ModeOf(flags), 1, 0))
      ensures r < 0 ==>
        r == OpenError(flags, old(procs)[curproc].slots, Result(old(Seen(lookup, path, flags.creat)), made), kind)
      ensures Valid() && Idle()
    {
      hide Balanced, With, Without, Has, Opened;
      ghost var before := Now();
      if flags.wronly && flags.rdwr {
        return -EINVAL;
      }
      var fd;
      r, fd := GetEmptyFd();
      if r != 0 {
        return;
      }
      var cwd := Cwd();
      ghost var a := Result(Seen(lookup, path, flags.creat), made);
      NoneTaken(NOTHING, a);
      var v;
      r, v := NamevOpen(cwd, path, flags.creat, made, after);
      if r < 0 {
        CountsFollow(before, Now(), NOTHING);
        return;
      }
      Dropped(NOTHING, v, v);
      r := Openable(kind(v), flags);
      if r == 0 {
        var f := Fcreate(fd, v, ModeOf(flags), room, at);
        r := if f.None? then -ENOMEM else fd;
      }
      Vput(v);
      if r < 0 {
        CountsFollow(before, Now(), NOTHING);
      }
    }
  }

  /** The new file takes over the reference to its vnode, and the descriptor is the one reference to it. */
  lemma CreateBalance(s: State, held: Held, at: nat, v: VnodeId, mode: Mode, p: nat, fd: nat)
    requires Balanced(s, With(held, Ok(v))) && at <= |s.files| && (at < |s.files| ==> s.files[at].Free?)
    requires p < |s.procs| && fd < |s.procs[p].slots| && s.procs[p].slots[fd].None?
    ensures Balanced(s.(files := WithFile(s.files, at, Live(v, mode, 1, 0)),
      procs := WithSlot(s.procs, p, fd, Some(at))), held)
  {
    hide Balanced, WithFile;
    NewBalance(s, With(held, Ok(v)), at, v, mode);
    var s1 := s.(files := WithFile(s.files, at, Live(v, mode, 1, 0)));
    var held1 := held.(files := held.files + multiset{at});
    assert held.vnodes + multiset{v} - multiset{v} == held.vnodes;
    SlotBalance(s1, held1, p, fd, Some(at), held.files);
  }

  lemma SlotAgain(procs: seq<Proc>, p: nat, fd: nat, x: Maybe)
    requires p < |procs| && fd < |procs[p].slots|
    ensures procs[p].slots[fd] == x ==> WithSlot(procs, p, fd, x) == procs
    ensures WithSlot(WithSlot(procs, p, fd, None), p, fd, x) == WithSlot(procs, p, fd, x)
  {
    if procs[p].slots[fd] == x {
      assert procs[p].slots[fd := x] == procs[p].slots;
    }
    assert procs[p].slots[fd := None][fd := x] == procs[p].slots[fd := x];
  }

  /** A file that is opened for reading and created is there, but cannot be read. */
  method CreatedNotReadable(fs: Vfs, path: string, v: VnodeId, at: nat) returns (fd: int, r: int)
    requires fs.Valid() && fs.Idle() && at <= |fs.files| && (at < |fs.files| ==> fs.files[at].Free?)
    requires fs.Seen(fs.lookup, path, true).Creates? && fs.kind(v).Reg? && !Full(fs.procs[fs.curproc].slots)
    modifies fs
    ensures fd >= 0 && r == -EBADF
  {
    hide Balanced, Opened;
    fd := fs.DoOpen(path, Flags(false, false, true, false, false), Ok(v), fs.lookup, true, at);
    r := fs.DoRead(fd, 1);
  }

  lemma DotNames()
    ensures Names("a/.", 0) == ["a", "."] && Names("a/./", 0) == ["a", "."]
  {
    var p, q := "a/.", "a/./";
    assert SkipSlashes(p, 0) == 0 && NameEnd(p, 0) == 1 && p[0..1] == "a";
    assert SkipSlashes(p, 1) == 2 && NameEnd(p, 2) == 3 && p[2..3] == ".";
    assert Names(p, 3) == [];
    assert Names(p, 1) == ["."];
    assert SkipSlashes(q, 0) == 0 && NameEnd(q, 0) == 1 && q[0..1] == "a";
    assert SkipSlashes(q, 1) == 2 && NameEnd(q, 2) == 3 && q[2..3] == ".";
    assert SkipSlashes(q, 3) == SkipSlashes(q, 4) == 4;
    assert Names(q, 3) == [];
    assert Names(q, 1) == ["."];
  }

  /** Removing the directory `.` is refused, but with a slash behind it the file system is asked. */
  method DotSlash(fs: Vfs, answer: int) returns (plain: int, slashed: int)
    requires fs.Valid() && fs.Idle() && fs.ParentSeen("a/.").Ok? && fs.kind(fs.ParentSeen("a/.").vnode).Dir?
    modifies fs
    ensures plain == -EINVAL && slashed == answer
  {
    hide Balanced, Names, Walk;
    DotNames();
    assert fs.ParentSeen("a/./") == fs.ParentSeen("a/.");
    ghost var v := fs.ParentSeen("a/.").vnode;
    assert RmdirCode(fs.kind(v), "a/.", answer) == -EINVAL && RmdirCode(fs.kind(v), "a/./", answer) == answer;
    plain := fs.DoRmdir("a/.", answer, fs.lookup);
    slashed := fs.DoRmdir("a/./", answer, fs.lookup);
  }

  /** An error of `readdir` is reported as an entry, and moves the position back. */
  method ErrorIsEntry(fs: Vfs, fd: int, error: int) returns (r: int)
    requires fs.Valid() && fs.Idle() && error < 0
    requires var f := fs.FileAt(fd);
      f.Some? && f.id < |fs.files| && fs.files[f.id].Live? && fs.kind(fs.files[f.id].vnode).Dir?
    modifies fs
    ensures r == DIRENT_SIZE
    ensures var f := old(fs.FileAt(fd));
      f.id < |fs.files| && fs.files[f.id].Live? && fs.files[f.id].pos == old(fs.files[f.id].pos) + error
  {
    hide Balanced;
    r := fs.DoGetdent(fd, error);
  }

  lemma TableSize(s: State, held: Held, p: nat)
    requires Balanced(s, held) && p < |s.procs|
    ensures |s.procs[p].slots| == NFILES
  {
  }

  predicate Full(slots: seq<Maybe>) {
    forall k :: 0 <= k < |slots| ==> slots[k].Some?
  }

  predicate LeastFree(slots: seq<Maybe>, fd: int) {
    0 <= fd < |slots| && slots[fd].None? && forall k :: 0 <= k < fd ==> slots[k].Some?
  }

  /** Directories are not opened for writing, nor device files without a device. */
  function Openable(kind: Kind, flags: Flags): int {
    if kind.Dir? && (flags.wronly || flags.rdwr) then -EISDIR
    else if (kind.Chr? || kind.Blk?) && !kind.device then -ENXIO
    else 0
  }

  /** A file is readable only when no flag at all was given, or for reading and writing. */
  function ModeOf(flags: Flags): Mode {
    Mode(flags == RDONLY || flags.rdwr, flags.wronly || flags.rdwr, flags.append)
  }

  function OpenError(flags: Flags, slots: seq<Maybe>, a: Answer, kind: VnodeId -> Kind): int {
    if flags.wronly && flags.rdwr then -EINVAL
    else if Full(slots) then -EMFILE
    else if a.Err? then a.Code()
    else if Openable(kind(a.vnode), flags) != 0 then Openable(kind(a.vnode), flags)
    else -ENOMEM
  }

  const DIRENT_SIZE := 48
  const SEEK_SET := 0
  const SEEK_CUR := 1
  const SEEK_END := 2

  /** Where a seek leads; negative when there is no such place. */
  function SeekTarget(pos: int, offset: int, whence: int, end: nat): int {
    if whence == SEEK_SET then offset
    else if whence == SEEK_CUR then pos + offset
    else if whence == SEEK_END then end + offset
    else -1
  }

  /** A file with one reference less. */
  function Less(file: File): File {
    if file.Free? || file.refcount <= 1 then Free else file.(refcount := file.refcount - 1)
  }

  /** The file gains a descriptor and the one that was replaced loses one, unless they are the same file. */
  function Dup2Files(files: seq<File>, f: Maybe, g: Maybe): seq<File> {
    if f == g || f.None? || f.id >= |files| || files[f.id].Free? then files
    else
      var more := files[f.id := files[f.id].(refcount := files[f.id].refcount + 1)];
      if g.None? || g.id >= |files| then more else more[g.id := Less(files[g.id])]
  }

  /** One descriptor more for a file of which the call holds a reference, and one less for what it replaces. */
  function Replaced(files: seq<File>, f: FileId, g: Maybe): seq<File>
    requires f < |files| && files[f].Live? && files[f].refcount > 1
  {
    if g.Some? && g.id < |files| then files[g.id := Less(files[g.id])] else files
  }

  lemma Dup2Ends(files: seq<File>, f: FileId, g: Maybe)
    requires f < |files| && files[f].Live? && files[f].refcount > 0
    ensures Replaced(files[f := files[f].(refcount := files[f].refcount + 1)], f, g) == Dup2Files(files, Some(f), g)
  {
  }

  function OneFile(f: FileId): Held {
    Held(multiset{}, multiset{f})
  }

  lemma OneFileGone(f: FileId)
    ensures f in OneFile(f).files && OneFile(f).(files := OneFile(f).files - multiset{f}) == NOTHING
  {
    assert multiset{f} - multiset{f} == multiset{};
  }

  function ReadCode(kind: VnodeId -> Kind, files: seq<File>, f: Maybe, answer: int): int {
    if f.None? || f.id >= |files| || files[f.id].Free? || !files[f.id].mode.read then -EBADF
    else if kind(files[f.id].vnode).Dir? then -EISDIR
    else answer
  }

  /** Only the position of that file moves. */
  function ReadFiles(kind: VnodeId -> Kind, files: seq<File>, f: Maybe, answer: int): seq<File> {
    if f.None? || f.id >= |files| || files[f.id].Free? || !files[f.id].mode.read
        || kind(files[f.id].vnode).Dir? then files
    else files[f.id := files[f.id].(pos := files[f.id].pos + answer)]
  }

  /** Moving a position changes no count. */
  lemma SameCounts(s: State, s': State)
    requires Balanced(s, NOTHING) && Balanced(s', NOTHING) && s'.procs == s.procs && s'.root == s.root
    requires
      && |s'.files| == |s.files|
      && forall f ::
           0 <= f < |s.files| ==>
             s.files[f].Live? == s'.files[f].Live? && (s.files[f].Live? ==> s.files[f].vnode == s'.files[f].vnode)
    ensures s'.counts == s.counts
  {
    hide Cwds, FilesBalance, OpenOn;
    forall v: VnodeId ensures OpenOn(s'.files, v) == OpenOn(s.files, v) {
      SameOpen(s.files, s'.files, v);
    }
    forall v: VnodeId ensures v in s.counts <==> v in s'.counts {
      assert Count(s.counts, v) == Count(s'.counts, v);
    }
    forall v | v in s.counts ensures s.counts[v] == s'.counts[v] {
      assert Count(s.counts, v) == Count(s'.counts, v);
    }
  }

  lemma {:induction false} SameOpen(files: seq<File>, files': seq<File>, v: VnodeId)
    requires
      && |files'| == |files|
      && forall f ::
           0 <= f < |files| ==>
             files[f].Live? == files'[f].Live? && (files[f].Live? ==> files[f].vnode == files'[f].vnode)
    ensures OpenOn(files', v) == OpenOn(files, v)
  {
    if files != [] {
      SameOpen(files[..|files| - 1], files'[..|files| - 1], v);
    }
  }

  function LinkInCode(kind: VnodeId -> Kind, newpath: string, parent: Answer, answer: int): int {
    if newpath == "" then -EINVAL
    else if parent.Err? then parent.Code()
    else if !kind(parent.vnode).Dir? then -ENOTDIR
    else if |BaseName(newpath)| > NAME_LEN then -ENAMETOOLONG
    else answer
  }

  function LinkCode(kind: VnodeId -> Kind, o: Outcome, newpath: string, parent: Answer, answer: int): int {
    var a := Result(o, Err(ENOENT));
    if a.Err? then a.Code() else if kind(a.vnode).Dir? then -EPERM else LinkInCode(kind, newpath, parent, answer)
  }

  function RenameCode(kind: VnodeId -> Kind, from: Answer, oldpath: string, to: Answer, newpath: string,
                      answer: int): int
  {
    if from.Err? then from.Code() else RenameInCode(kind, from.vnode, BaseName(oldpath), to, newpath, answer)
  }

  function RenameInCode(kind: VnodeId -> Kind, from: VnodeId, oldname: string, to: Answer, newpath: string,
                        answer: int): int
  {
    if newpath == "" then -EINVAL
    else if to.Err? then to.Code()
    else if |oldname| > NAME_LEN || |BaseName(newpath)| > NAME_LEN then -ENAMETOOLONG
    else if !kind(from).Dir? || !kind(to.vnode).Dir? then -ENOTDIR
    else answer
  }

  function ChdirCode(kind: VnodeId -> Kind, o: Outcome): int {
    var a := Result(o, Err(ENOENT));
    if a.Err? then a.Code() else if kind(a.vnode).Dir? then 0 else -ENOTDIR
  }

  /** The name and everything after it, which is what a comparison of whole strings sees. */
  function Rest(name: Name, path: string): string {
    if name.Part? && name.at <= |path| then path[name.at..] else "."
  }

  function RmdirCode(kind: Kind, path: string, answer: int): int {
    if !kind.Dir? then -ENOTDIR
    else if !Slashed(path) && BaseName(path) == "." then -EINVAL
    else if !Slashed(path) && BaseName(path) == ".." then -ENOTEMPTY
    else if |BaseName(path)| > NAME_LEN then -ENAMETOOLONG
    else answer
  }

  /** A dot name is only recognised when no slash follows it. */
  lemma RestFacts(name: Name, path: string)
    requires Denotes(name, path) && path != ""
    ensures Rest(name, path) == "." <==> !Slashed(path) && BaseName(path) == "."
    ensures Rest(name, path) == ".." <==> !Slashed(path) && BaseName(path) == ".."
  {
    NameFacts(name, path);
    if name.Part? {
      assert path[name.at..] == Text(name, path) + path[name.at + name.len..];
      if name.at + name.len < |path| {
        assert path[name.at..][name.len] == '/';
      }
    }
  }

  function UnlinkCode(lookup: Lookup, kind: VnodeId -> Kind, parent: Answer, name: string, answer: int): int {
    if parent.Err? then parent.Code()
    else if |name| > NAME_LEN then -ENAMETOOLONG
    else var a := Walk(lookup, kind, parent.vnode, [name]);
      if a.Err? then a.Code() else if kind(a.vnode).Dir? then -EPERM else answer
  }

  function MkdirCode(lookup: Lookup, kind: VnodeId -> Kind, parent: Answer, name: string, made: Answer): int {
    if parent.Err? then parent.Code()
    else if |name| > NAME_LEN then -ENAMETOOLONG
    else MadeCode(Walk(lookup, kind, parent.vnode, [name]), made)
  }

  function MadeCode(a: Answer, made: Answer): int {
    if a.Ok? then -EEXIST else if a.e == ENOENT then made.Code() else a.Code()
  }

  lemma WalkDir(lookup: Lookup, kind: VnodeId -> Kind, dir: VnodeId, name: string)
    ensures !kind(dir).Dir? ==> Walk(lookup, kind, dir, [name]) == Err(ENOTDIR)
  {
  }

  /** What is left of the names ends as the whole path does. */
  predicate EndsAs(left: seq<string>, path: string) {
    var names := Names(path, 0);
    (left == [] <==> names == []) && |left| <= |names| && left == names[|names| - |left|..]
  }

  lemma EndsTail(left: seq<string>, path: string)
    requires EndsAs(left, path) && |left| >= 2
    ensures EndsAs(left[1..], path)
  {
  }

  lemma StartNames(path: string, i: nat)
    requires path != "" && i == if path[0] == '/' then 1 else 0
    ensures Names(path, i) == Names(path, 0) && EndsAs(Names(path, i), path)
  {
    assert SkipSlashes(path, i) == SkipSlashes(path, 0);
  }

  lemma ParentIs(lookup: Lookup, kind: VnodeId -> Kind, v: VnodeId, path: string)
    ensures ParentOf(lookup, kind, v, path) == Walk(lookup, kind, v, AllButLast(Names(path, 0)))
  {
  }

  lemma WalkNone(lookup: Lookup, kind: VnodeId -> Kind, v: VnodeId, left: seq<string>)
    requires |left| <= 1
    ensures Walk(lookup, kind, v, AllButLast(left)) == Ok(v)
  {
  }

  lemma LastDenotes(path: string, token: nat, len: nat, left: seq<string>)
    requires len > 0 && token + len <= |path| && left == [path[token..token + len]] && EndsAs(left, path)
    requires path[token + len - 1] != '/' && forall k :: token + len <= k < |path| ==> path[k] == '/'
    ensures Denotes(Part(token, len), path)
  {
    var names := Names(path, 0);
    assert names[|names| - 1] == names[|names| - 1..][0];
  }

  lemma DotDenotes(path: string, left: seq<string>)
    requires left == [] && EndsAs(left, path)
    ensures Denotes(Dot, path)
  {
  }

  lemma AllButLastStep(names: seq<string>)
    requires |names| >= 2
    ensures AllButLast(names) == [names[0]] + AllButLast(names[1..])
  {
  }

  lemma WalkOne(lookup: Lookup, kind: VnodeId -> Kind, v: VnodeId, names: seq<string>)
    requires names != []
    ensures Walk(lookup, kind, v, names) ==
      match Walk(lookup, kind, v, [names[0]]) {
        case Err(e) => Err(e)
        case Ok(w) => Walk(lookup, kind, w, names[1..])
      }
  {
    assert [names[0]][1..] == [];
  }
}
