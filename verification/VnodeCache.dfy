/**
  The per-file-system vnode cache (kernel/fs/vnode.c, kernel/mm/mobj.c,
  kernel/include/util/atomic.h) as a state machine.

  Any number of threads run `vget`, `vget_locked`, `vref`, `vput`, `vlock` and
  `vunlock`; each action below is one indivisible step of one thread.  A vnode
  address may be reused after it is freed.  Every reference is represented by
  a token with one owning thread, so that the atomic counter can be compared
  with the references that really exist.
*/
module VnodeCache {

  type Ino = nat
  type Address = nat
  type Thread = nat
  type Token = nat

  datatype LoadState = Loading | Loaded

  /** Who owns a vnode's mutex: a thread through a reference, or its destroyer. */
  datatype Holder = Nobody | ByReference(token: Token) | ByDestroyer(thread: Thread)

  datatype Vnode = Vnode(ino: Ino, count: int, state: LoadState, lock: Holder)

  datatype Reference = Reference(owner: Thread, vnode: Address)

  /** What a thread is about to do. */
  datatype Label =
    | Idle
      // __vget: search
    | WantList | Scan | ReadCount | CompareAndSwap | ReleaseForRetry | Yield
      // __vget: found
    | ReleaseAfterHit | TestLoaded | Asleep | WantVnode
      // __vget: create
    | Insert | LockNew | ReleaseAfterInsert | BeginRead | EndRead | SetLoaded | Broadcast | FinishNew
      // vput and vnode_destructor
    | Decrement | LockDead | BeginDelete | EndDelete | UnlockDead
    | WantListForRemoval | Remove | ReleaseAfterRemoval | Free

  /** A thread: its program counter and the locals of `__vget` and `vput`. */
  datatype Local = Local(at: Label, ino: Ino, locked: bool, i: nat, v: Address, token: Token, seen: int)

  datatype ListMutex = Open | HeldBy(thread: Thread)

  /** The observable events of a run, in the order they happen. */
  datatype Kind =
    | Inserted | ReadBegun | ReadEnded | BecameLoaded | Returned
    | CountReachedZero | DeleteBegun | DeleteEnded | Removed

  datatype Event = Event(kind: Kind, ino: Ino, v: Address, who: Thread)

  datatype State = State(
    mutex: ListMutex,                    // vnode_list_mutex
    list: seq<Address>,                  // vnode_list
    vnodes: map<Address, Vnode>,         // allocated vnodes
    refs: map<Token, Reference>,         // outstanding references
    threads: map<Thread, Local>,
    log: seq<Event>)

  // ---------------------------------------------------------------- life cycle

  /** The stages one inode goes through, over and over. */
  datatype Stage =
    | Absent | Listed | BeingRead | HasBeenRead | Live | Dead | BeingDeleted | HasBeenDeleted | Violated

  /** A stage, the vnode it concerns and the thread that has to end it. */
  datatype Phase = Phase(stage: Stage, v: Address, who: Thread)

  /** The only order in which the events of one inode may happen. */
  function Advance(p: Phase, e: Event): Phase {
    match e.kind
    case Inserted => Phase(if p.stage.Absent? then Listed else Violated, e.v, e.who)
    case ReadBegun => Phase(if p == Phase(Listed, e.v, e.who) then BeingRead else Violated, e.v, e.who)
    case ReadEnded => Phase(if p == Phase(BeingRead, e.v, e.who) then HasBeenRead else Violated, e.v, e.who)
    case BecameLoaded => Phase(if p == Phase(HasBeenRead, e.v, e.who) then Live else Violated, e.v, e.who)
    case Returned => if p.stage.Live? && p.v == e.v then p else Phase(Violated, e.v, e.who)
    case CountReachedZero => Phase(if p.stage.Live? && p.v == e.v then Dead else Violated, e.v, e.who)
    case DeleteBegun => Phase(if p == Phase(Dead, e.v, e.who) then BeingDeleted else Violated, e.v, e.who)
    case DeleteEnded => Phase(if p == Phase(BeingDeleted, e.v, e.who) then HasBeenDeleted else Violated, e.v, e.who)
    case Removed => Phase(if p == Phase(HasBeenDeleted, e.v, e.who) then Absent else Violated, e.v, e.who)
  }

  function PhaseOf(log: seq<Event>, ino: Ino): Phase {
    if log == [] then Phase(Absent, 0, 0)
    else
      var before := PhaseOf(log[..|log| - 1], ino);
      var e := log[|log| - 1];
      if e.ino == ino then Advance(before, e) else before
  }

  lemma PhaseAfter(log: seq<Event>, e: Event)
    ensures forall ino :: PhaseOf(log + [e], ino) ==
                          if e.ino == ino then Advance(PhaseOf(log, ino), e) else PhaseOf(log, ino)
  {
    assert (log + [e])[..|log|] == log;
  }

  // -------------------------------------------------------------------- actions

  function Move(s: State, t: Thread, l: Local): State {
    s.(threads := s.threads[t := l])
  }

  function Record(s: State, kind: Kind, v: Address, t: Thread): State
    requires v in s.vnodes
  {
    s.(log := s.log + [Event(kind, s.vnodes[v].ino, v, t)])
  }

  function SetLock(s: State, v: Address, h: Holder): State
    requires v in s.vnodes
  {
    s.(vnodes := s.vnodes[v := s.vnodes[v].(lock := h)])
  }

  function AddReference(s: State, t: Thread, v: Address, k: Token): State
    requires v in s.vnodes
  {
    s.(vnodes := s.vnodes[v := s.vnodes[v].(count := s.vnodes[v].count + 1)],
       refs := s.refs[k := Reference(t, v)])
  }

  function DropReference(s: State, v: Address, k: Token): State
    requires v in s.vnodes
  {
    s.(vnodes := s.vnodes[v := s.vnodes[v].(count := s.vnodes[v].count - 1)], refs := s.refs - {k})
  }

  function Without(list: seq<Address>, v: Address): seq<Address> {
    if list == [] then []
    else if list[0] == v then list[1..]
    else [list[0]] + Without(list[1..], v)
  }

  predicate IsAt(s: State, t: Thread, at: Label) {
    t in s.threads && s.threads[t].at == at
  }

  /** Thread `t` is between operations and owns reference `k`. */
  predicate MayUse(s: State, t: Thread, k: Token) {
    IsAt(s, t, Idle) && k in s.refs && s.refs[k].owner == t && s.refs[k].vnode in s.vnodes
  }

  predicate WorksOn(s: State, t: Thread, at: Label) {
    IsAt(s, t, at) && s.threads[t].v in s.vnodes
  }

  // What a client may do between operations.

  predicate StartGet(s: State, s': State, t: Thread, ino: Ino, locked: bool) {
    IsAt(s, t, Idle) && s' == Move(s, t, s.threads[t].(at := WantList, ino := ino, locked := locked))
  }

  /** A reference is put only after the mutex taken through it is released. */
  predicate StartPut(s: State, s': State, t: Thread, k: Token) {
    && MayUse(s, t, k) && s.vnodes[s.refs[k].vnode].lock != ByReference(k)
    && s' == Move(s, t, s.threads[t].(at := Decrement, v := s.refs[k].vnode, token := k))
  }

  predicate Vref(s: State, s': State, t: Thread, k: Token, extra: Token) {
    MayUse(s, t, k) && extra !in s.refs && s' == AddReference(s, t, s.refs[k].vnode, extra)
  }

  predicate Vlock(s: State, s': State, t: Thread, k: Token) {
    && MayUse(s, t, k) && s.vnodes[s.refs[k].vnode].lock == Nobody
    && s' == SetLock(s, s.refs[k].vnode, ByReference(k))
  }

  predicate Vunlock(s: State, s': State, t: Thread, k: Token) {
    && MayUse(s, t, k) && s.vnodes[s.refs[k].vnode].lock == ByReference(k)
    && s' == SetLock(s, s.refs[k].vnode, Nobody)
  }

  /** Hand a reference over, for instance through a shared file table. */
  predicate Give(s: State, s': State, t: Thread, k: Token, receiver: Thread) {
    MayUse(s, t, k) && receiver in s.threads && s' == s.(refs := s.refs[k := s.refs[k].(owner := receiver)])
  }

  // __vget: search the list.

  predicate TakeList(s: State, s': State, t: Thread) {
    IsAt(s, t, WantList) && s.mutex == Open && s' == Move(s, t, s.threads[t].(at := Scan, i := 0)).(mutex := HeldBy(t))
  }

  predicate Pass(s: State, s': State, t: Thread) {
    && IsAt(s, t, Scan) && s.threads[t].i < |s.list| && s.list[s.threads[t].i] in s.vnodes
    && s.vnodes[s.list[s.threads[t].i]].ino != s.threads[t].ino
    && s' == Move(s, t, s.threads[t].(i := s.threads[t].i + 1))
  }

  predicate Match(s: State, s': State, t: Thread) {
    && IsAt(s, t, Scan) && s.threads[t].i < |s.list| && s.list[s.threads[t].i] in s.vnodes
    && s.vnodes[s.list[s.threads[t].i]].ino == s.threads[t].ino
    && s' == Move(s, t, s.threads[t].(at := ReadCount, v := s.list[s.threads[t].i]))
  }

  /** `__sync_fetch_and_add(a, 0)`. */
  predicate Fetch(s: State, s': State, t: Thread) {
    && WorksOn(s, t, ReadCount)
    && s' == Move(s, t, s.threads[t].(at := CompareAndSwap, seen := s.vnodes[s.threads[t].v].count))
  }

  predicate SwapSucceeds(s: State, s': State, t: Thread, k: Token) {
    && WorksOn(s, t, CompareAndSwap) && s.threads[t].seen != 0 && s.vnodes[s.threads[t].v].count == s.threads[t].seen
    && k !in s.refs
    && s' == Move(AddReference(s, t, s.threads[t].v, k), t, s.threads[t].(at := ReleaseAfterHit, token := k))
  }

  predicate SwapFails(s: State, s': State, t: Thread) {
    && WorksOn(s, t, CompareAndSwap) && s.threads[t].seen != 0 && s.vnodes[s.threads[t].v].count != s.threads[t].seen
    && s' == Move(s, t, s.threads[t].(seen := s.vnodes[s.threads[t].v].count))
  }

  predicate SeesZero(s: State, s': State, t: Thread) {
    && IsAt(s, t, CompareAndSwap) && s.threads[t].seen == 0 && s' == Move(s, t, s.threads[t].(at := ReleaseForRetry))
  }

  predicate GiveUpList(s: State, s': State, t: Thread) {
    IsAt(s, t, ReleaseForRetry) && s' == Move(s, t, s.threads[t].(at := Yield)).(mutex := Open)
  }

  predicate Retry(s: State, s': State, t: Thread) {
    IsAt(s, t, Yield) && s' == Move(s, t, s.threads[t].(at := WantList))
  }

  // __vget: the vnode was found.

  predicate LeaveListAfterHit(s: State, s': State, t: Thread) {
    IsAt(s, t, ReleaseAfterHit) && s' == Move(s, t, s.threads[t].(at := TestLoaded)).(mutex := Open)
  }

  predicate FallAsleep(s: State, s': State, t: Thread) {
    && WorksOn(s, t, TestLoaded) && s.vnodes[s.threads[t].v].state.Loading?
    && s' == Move(s, t, s.threads[t].(at := Asleep))
  }

  predicate FindLoaded(s: State, s': State, t: Thread) {
    && WorksOn(s, t, TestLoaded) && s.vnodes[s.threads[t].v].state.Loaded? && !s.threads[t].locked
    && s' == Record(Move(s, t, s.threads[t].(at := Idle)), Returned, s.threads[t].v, t)
  }

  predicate FindLoadedThenLock(s: State, s': State, t: Thread) {
    && WorksOn(s, t, TestLoaded) && s.vnodes[s.threads[t].v].state.Loaded? && s.threads[t].locked
    && s' == Move(s, t, s.threads[t].(at := WantVnode))
  }

  predicate TakeVnode(s: State, s': State, t: Thread) {
    && WorksOn(s, t, WantVnode) && s.vnodes[s.threads[t].v].lock == Nobody
    && s' == Record(Move(SetLock(s, s.threads[t].v, ByReference(s.threads[t].token)), t, s.threads[t].(at := Idle)),
                    Returned, s.threads[t].v, t)
  }

  // __vget: the vnode has to be created.

  predicate Create(s: State, s': State, t: Thread, v: Address, k: Token) {
    && IsAt(s, t, Scan) && s.threads[t].i == |s.list| && v !in s.vnodes && k !in s.refs
    && s' == Move(s.(vnodes := s.vnodes[v := Vnode(s.threads[t].ino, 1, Loading, Nobody)],
                     refs := s.refs[k := Reference(t, v)]),
                  t, s.threads[t].(at := Insert, v := v, token := k))
  }

  predicate InsertTail(s: State, s': State, t: Thread) {
    && WorksOn(s, t, Insert)
    && s' == Record(Move(s.(list := s.list + [s.threads[t].v]), t, s.threads[t].(at := LockNew)), Inserted,
                    s.threads[t].v, t)
  }

  predicate TakeNew(s: State, s': State, t: Thread) {
    && WorksOn(s, t, LockNew) && s.vnodes[s.threads[t].v].lock == Nobody
    && s'
      == Move(SetLock(s, s.threads[t].v, ByReference(s.threads[t].token)), t, s.threads[t].(at := ReleaseAfterInsert))
  }

  predicate LeaveListAfterInsert(s: State, s': State, t: Thread) {
    IsAt(s, t, ReleaseAfterInsert) && s' == Move(s, t, s.threads[t].(at := BeginRead)).(mutex := Open)
  }

  predicate StartReading(s: State, s': State, t: Thread) {
    WorksOn(s, t, BeginRead) && s' == Record(Move(s, t, s.threads[t].(at := EndRead)), ReadBegun, s.threads[t].v, t)
  }

  predicate StopReading(s: State, s': State, t: Thread) {
    WorksOn(s, t, EndRead) && s' == Record(Move(s, t, s.threads[t].(at := SetLoaded)), ReadEnded, s.threads[t].v, t)
  }

  predicate MarkLoaded(s: State, s': State, t: Thread) {
    && WorksOn(s, t, SetLoaded)
    && s' == Record(Move(s.(vnodes := s.vnodes[s.threads[t].v := s.vnodes[s.threads[t].v].(state := Loaded)]),
                         t, s.threads[t].(at := Broadcast)),
                    BecameLoaded, s.threads[t].v, t)
  }

  /** `sched_broadcast_on`: every thread asleep on `v` tests the state again. */
  function WakeAll(threads: map<Thread, Local>, v: Address): map<Thread, Local> {
    map t | t in threads ::
      if threads[t].at.Asleep? && threads[t].v == v then threads[t].(at := TestLoaded) else threads[t]
  }

  predicate WakeWaiters(s: State, s': State, t: Thread) {
    && IsAt(s, t, Broadcast)
    && s' == Move(s.(threads := WakeAll(s.threads, s.threads[t].v)), t, s.threads[t].(at := FinishNew))
  }

  predicate ReturnNew(s: State, s': State, t: Thread) {
    && WorksOn(s, t, FinishNew)
    && s' == Record(Move(if s.threads[t].locked then s
         else SetLock(s, s.threads[t].v, Nobody), t, s.threads[t].(at := Idle)),
                    Returned, s.threads[t].v, t)
  }

  // vput and vnode_destructor.

  predicate PutOne(s: State, s': State, t: Thread) {
    && WorksOn(s, t, Decrement) && s.vnodes[s.threads[t].v].count != 1
    && s' == Move(DropReference(s, s.threads[t].v, s.threads[t].token), t, s.threads[t].(at := Idle))
  }

  predicate PutLast(s: State, s': State, t: Thread) {
    && WorksOn(s, t, Decrement) && s.vnodes[s.threads[t].v].count == 1
    && s' == Record(Move(DropReference(s, s.threads[t].v, s.threads[t].token), t, s.threads[t].(at := LockDead)),
                    CountReachedZero, s.threads[t].v, t)
  }

  predicate TakeDead(s: State, s': State, t: Thread) {
    && WorksOn(s, t, LockDead) && s.vnodes[s.threads[t].v].lock == Nobody
    && s' == Move(SetLock(s, s.threads[t].v, ByDestroyer(t)), t, s.threads[t].(at := BeginDelete))
  }

  predicate StartDeleting(s: State, s': State, t: Thread) {
    && WorksOn(s, t, BeginDelete)
    && s' == Record(Move(s, t, s.threads[t].(at := EndDelete)), DeleteBegun, s.threads[t].v, t)
  }

  predicate StopDeleting(s: State, s': State, t: Thread) {
    && WorksOn(s, t, EndDelete)
    && s' == Record(Move(s, t, s.threads[t].(at := UnlockDead)), DeleteEnded, s.threads[t].v, t)
  }

  predicate LeaveDead(s: State, s': State, t: Thread) {
    && WorksOn(s, t, UnlockDead)
    && s' == Move(SetLock(s, s.threads[t].v, Nobody), t, s.threads[t].(at := WantListForRemoval))
  }

  predicate TakeListForRemoval(s: State, s': State, t: Thread) {
    && IsAt(s, t, WantListForRemoval) && s.mutex == Open
    && s' == Move(s, t, s.threads[t].(at := Remove)).(mutex := HeldBy(t))
  }

  predicate RemoveFromList(s: State, s': State, t: Thread) {
    && WorksOn(s, t, Remove)
    && s' == Record(Move(s.(list := Without(s.list, s.threads[t].v)), t, s.threads[t].(at := ReleaseAfterRemoval)),
                    Removed, s.threads[t].v, t)
  }

  predicate LeaveListAfterRemoval(s: State, s': State, t: Thread) {
    IsAt(s, t, ReleaseAfterRemoval) && s' == Move(s, t, s.threads[t].(at := Free)).(mutex := Open)
  }

  predicate FreeVnode(s: State, s': State, t: Thread) {
    IsAt(s, t, Free) && s' == Move(s.(vnodes := s.vnodes - {s.threads[t].v}), t, s.threads[t].(at := Idle))
  }

  ghost predicate Init(s: State) {
    s.mutex == Open && s.list == [] && s.vnodes == map[] && s.refs == map[] && s.log == []
    && forall t :: t in s.threads ==> s.threads[t].at.Idle?
  }

  ghost predicate ClientStep(s: State, s': State, t: Thread) {
    || (exists ino, locked :: StartGet(s, s', t, ino, locked))
    || (exists k :: StartPut(s, s', t, k))
    || (exists k, extra :: Vref(s, s', t, k, extra))
    || (exists k :: Vlock(s, s', t, k))
    || (exists k :: Vunlock(s, s', t, k))
    || (exists k, u :: Give(s, s', t, k, u))
  }

  ghost predicate SearchStep(s: State, s': State, t: Thread) {
    || TakeList(s, s', t) || Pass(s, s', t) || Match(s, s', t) || Fetch(s, s', t)
    || (exists k :: SwapSucceeds(s, s', t, k)) || SwapFails(s, s', t) || SeesZero(s, s', t)
    || GiveUpList(s, s', t) || Retry(s, s', t)
  }

  ghost predicate FoundStep(s: State, s': State, t: Thread) {
    || LeaveListAfterHit(s, s', t) || FallAsleep(s, s', t) || FindLoaded(s, s', t)
    || FindLoadedThenLock(s, s', t) || TakeVnode(s, s', t)
  }

  ghost predicate CreateStep(s: State, s': State, t: Thread) {
    || (exists v, k :: Create(s, s', t, v, k)) || InsertTail(s, s', t) || TakeNew(s, s', t)
    || LeaveListAfterInsert(s, s', t) || StartReading(s, s', t) || StopReading(s, s', t)
    || MarkLoaded(s, s', t) || WakeWaiters(s, s', t) || ReturnNew(s, s', t)
  }

  ghost predicate PutStep(s: State, s': State, t: Thread) {
    || PutOne(s, s', t) || PutLast(s, s', t) || TakeDead(s, s', t) || StartDeleting(s, s', t)
    || StopDeleting(s, s', t)
  }

  ghost predicate UnlinkStep(s: State, s': State, t: Thread) {
    || LeaveDead(s, s', t) || TakeListForRemoval(s, s', t) || RemoveFromList(s, s', t)
    || LeaveListAfterRemoval(s, s', t) || FreeVnode(s, s', t)
  }

  ghost predicate StepOf(s: State, s': State, t: Thread) {
    || ClientStep(s, s', t) || SearchStep(s, s', t) || FoundStep(s, s', t)
    || CreateStep(s, s', t) || PutStep(s, s', t) || UnlinkStep(s, s', t)
  }

  ghost predicate Next(s: State, s': State) {
    exists t :: StepOf(s, s', t)
  }

  /** A run: the states visited by some interleaving, starting from an empty cache. */
  ghost predicate IsRun(run: seq<State>) {
    |run| > 0 && Init(run[0]) && forall i :: 0 < i < |run| ==> Next(run[i - 1], run[i])
  }

  // ------------------------------------------------------------------ invariant

  function Tokens(refs: map<Token, Reference>, v: Address): set<Token> {
    set k | k in refs && refs[k].vnode == v
  }

  /** What a thread relies on about the mutex of the vnode it works on. */
  datatype LockRule = Anyone | NobodyYet | Mine | MineAsDestroyer | NotMine

  /**
    What a thread at some label holds and relies on: the list mutex, its own
    token, a vnode that is not on the list, that vnode being loaded, its mutex,
    and the stage the thread has to bring to an end (`Violated` for none).
  */
  datatype Role = Role(list: bool, token: bool, offList: bool, loaded: bool, lock: LockRule, duty: Stage)

  function RoleOf(at: Label): (r: Role)
    ensures r.lock.Mine? || r.lock.NotMine? ==> r.token
    ensures r.offList ==> r.duty.Violated?
    ensures at.LockNew? ==> r.duty.Listed?
    ensures at.SetLoaded? ==> r.duty.HasBeenRead?
    ensures !r.duty.Live? && !r.duty.Absent?
    ensures r.loaded || !r.lock.Anyone? ==> r.token || r.offList || !r.duty.Violated?
    ensures at.Scan? || at.ReadCount? || at.CompareAndSwap? || at.Insert? ==> r.list
    ensures at.Insert? || at.Free? ==> r.offList
    ensures at.TestLoaded? || at.Asleep? ==> r == Role(false, true, false, false, Anyone, Violated)
    ensures at.Idle? ==> r == Role(false, false, false, false, Anyone, Violated)
  {
    match at
    case Idle => Role(false, false, false, false, Anyone, Violated)
    case WantList => Role(false, false, false, false, Anyone, Violated)
    case Scan => Role(true, false, false, false, Anyone, Violated)
    case ReadCount => Role(true, false, false, false, Anyone, Violated)
    case CompareAndSwap => Role(true, false, false, false, Anyone, Violated)
    case ReleaseForRetry => Role(true, false, false, false, Anyone, Violated)
    case Yield => Role(false, false, false, false, Anyone, Violated)
    case ReleaseAfterHit => Role(true, true, false, false, Anyone, Violated)
    case TestLoaded => Role(false, true, false, false, Anyone, Violated)
    case Asleep => Role(false, true, false, false, Anyone, Violated)
    case WantVnode => Role(false, true, false, true, Anyone, Violated)
    case Insert => Role(true, true, true, false, NobodyYet, Violated)
    case LockNew => Role(true, true, false, false, NobodyYet, Listed)
    case ReleaseAfterInsert => Role(true, true, false, false, Mine, Listed)
    case BeginRead => Role(false, true, false, false, Mine, Listed)
    case EndRead => Role(false, true, false, false, Mine, BeingRead)
    case SetLoaded => Role(false, true, false, false, Mine, HasBeenRead)
    case Broadcast => Role(false, true, false, true, Mine, Violated)
    case FinishNew => Role(false, true, false, true, Mine, Violated)
    case Decrement => Role(false, true, false, true, NotMine, Violated)
    case LockDead => Role(false, false, false, false, NobodyYet, Dead)
    case BeginDelete => Role(false, false, false, false, MineAsDestroyer, Dead)
    case EndDelete => Role(false, false, false, false, MineAsDestroyer, BeingDeleted)
    case UnlockDead => Role(false, false, false, false, MineAsDestroyer, HasBeenDeleted)
    case WantListForRemoval => Role(false, false, false, false, NobodyYet, HasBeenDeleted)
    case Remove => Role(true, false, false, false, NobodyYet, HasBeenDeleted)
    case ReleaseAfterRemoval => Role(true, false, true, false, Anyone, Violated)
    case Free => Role(false, false, true, false, Anyone, Violated)
  }

  ghost predicate MutexOk(mutex: ListMutex, threads: map<Thread, Local>) {
    && (mutex.HeldBy? ==> mutex.thread in threads)
    && forall t :: t in threads ==> (RoleOf(threads[t].at).list <==> mutex == HeldBy(t))
  }

  ghost predicate ListOk(list: seq<Address>, vnodes: map<Address, Vnode>) {
    && (forall v :: v in list ==> v in vnodes)
    && (forall i, j :: 0 <= i < j < |list| ==> list[i] != list[j])
    && (forall u, v :: u in list && v in list && u != v ==> vnodes[u].ino != vnodes[v].ino)
  }

  ghost predicate CountsOk(vnodes: map<Address, Vnode>, refs: map<Token, Reference>) {
    forall v :: v in vnodes ==> vnodes[v].count == |Tokens(refs, v)|
  }

  /** A reference leads to a listed vnode, which is loaded unless its owner's `vget` is still under way. */
  ghost predicate RefOk(k: Token, r: Reference, list: seq<Address>, vnodes: map<Address, Vnode>,
                        threads: map<Thread, Local>) {
    && r.vnode in vnodes && r.owner in threads
    && var l := threads[r.owner];
    && (r.vnode in list || (l.at.Insert? && l.token == k))
    && (vnodes[r.vnode].state.Loading? ==> RoleOf(l.at).token && l.token == k)
  }

  ghost predicate RefsOk(refs: map<Token, Reference>, list: seq<Address>, vnodes: map<Address, Vnode>,
                         threads: map<Thread, Local>) {
    forall k :: k in refs ==> RefOk(k, refs[k], list, vnodes, threads)
  }

  ghost predicate LocksOk(vnodes: map<Address, Vnode>, refs: map<Token, Reference>, threads: map<Thread, Local>) {
    forall v :: v in vnodes ==> LockOk(v, vnodes[v].lock, refs, threads)
  }

  ghost predicate LockOk(v: Address, h: Holder, refs: map<Token, Reference>, threads: map<Thread, Local>) {
    && (h.ByReference? ==> h.token in refs && refs[h.token].vnode == v)
    && (h.ByDestroyer? ==>
         h.thread in threads && RoleOf(threads[h.thread].at).lock.MineAsDestroyer? && threads[h.thread].v == v)
  }

  ghost predicate PhaseOk(p: Phase, ino: Ino, list: seq<Address>, vnodes: map<Address, Vnode>,
                          threads: map<Thread, Local>) {
    && !p.stage.Violated?
    && (p.stage.Absent? ==> forall v :: v in list && v in vnodes ==> vnodes[v].ino != ino)
    && (!p.stage.Absent? ==>
          && p.v in list && p.v in vnodes && vnodes[p.v].ino == ino
          && (vnodes[p.v].state.Loading? <==> p.stage.Listed? || p.stage.BeingRead? || p.stage.HasBeenRead?)
          && (vnodes[p.v].count == 0 <==> p.stage.Dead? || p.stage.BeingDeleted? || p.stage.HasBeenDeleted?)
          && (!p.stage.Live? ==>
               p.who in threads && RoleOf(threads[p.who].at).duty == p.stage && threads[p.who].v == p.v))
  }

  ghost predicate PhasesOk(log: seq<Event>, list: seq<Address>, vnodes: map<Address, Vnode>,
                           threads: map<Thread, Local>)
  {
    forall ino :: PhaseOk(PhaseOf(log, ino), ino, list, vnodes, threads)
  }

  /** The thread's token is its own and names the vnode it works on. */
  ghost predicate TokenOk(t: Thread, l: Local, refs: map<Token, Reference>) {
    RoleOf(l.at).token ==> l.token in refs && refs[l.token] == Reference(t, l.v)
  }

  /** What a search of the list has established so far. */
  ghost predicate SearchOk(l: Local, list: seq<Address>, vnodes: map<Address, Vnode>) {
    && (l.at.Scan? ==> l.i <= |list| && forall j :: 0 <= j < l.i ==> list[j] in vnodes && vnodes[list[j]].ino != l.ino)
    && (l.at.ReadCount? || l.at.CompareAndSwap? ==> l.v in list && l.v in vnodes && vnodes[l.v].ino == l.ino)
    && (l.at.Insert? ==> l.v in vnodes && forall u :: u in list && u in vnodes ==> vnodes[u].ino != vnodes[l.v].ino)
  }

  /** What the thread relies on about the vnode it works on. */
  ghost predicate VnodeOk(t: Thread, l: Local, list: seq<Address>, vnodes: map<Address, Vnode>) {
    && (RoleOf(l.at).offList ==> l.v in vnodes && l.v !in list && (l.at.Insert? <==> vnodes[l.v].count != 0))
    && (l.at.Insert? ==> l.v in vnodes && vnodes[l.v].state.Loading?)
    && (RoleOf(l.at).loaded ==> l.v in vnodes && vnodes[l.v].state.Loaded?)
    && (RoleOf(l.at).lock.NobodyYet? ==> l.v in vnodes && vnodes[l.v].lock == Nobody)
    && (RoleOf(l.at).lock.Mine? ==> l.v in vnodes && vnodes[l.v].lock == ByReference(l.token))
    && (RoleOf(l.at).lock.MineAsDestroyer? ==> l.v in vnodes && vnodes[l.v].lock == ByDestroyer(t))
    && (RoleOf(l.at).lock.NotMine? ==> l.v in vnodes && vnodes[l.v].lock != ByReference(l.token))
  }

  ghost predicate DutyOk(t: Thread, l: Local, vnodes: map<Address, Vnode>, log: seq<Event>) {
    !RoleOf(l.at).duty.Violated? ==> l.v in vnodes && PhaseOf(log, vnodes[l.v].ino) == Phase(RoleOf(l.at).duty, l.v, t)
  }

  ghost predicate ThreadsOk(s: State) {
    && (forall t :: t in s.threads ==> TokenOk(t, s.threads[t], s.refs))
    && (forall t :: t in s.threads ==> SearchOk(s.threads[t], s.list, s.vnodes))
    && (forall t :: t in s.threads ==> VnodeOk(t, s.threads[t], s.list, s.vnodes))
    && (forall t :: t in s.threads ==> DutyOk(t, s.threads[t], s.vnodes, s.log))
  }

  ghost predicate OffListOk(threads: map<Thread, Local>) {
    forall t, u ::
      t in threads && u in threads && t != u && RoleOf(threads[t].at).offList && RoleOf(threads[u].at).offList
      ==> threads[t].v != threads[u].v
  }

  ghost predicate Inv(s: State) {
    && MutexOk(s.mutex, s.threads)
    && ListOk(s.list, s.vnodes)
    && CountsOk(s.vnodes, s.refs)
    && OffListOk(s.threads)
    && RefsOk(s.refs, s.list, s.vnodes, s.threads)
    && LocksOk(s.vnodes, s.refs, s.threads)
    && ThreadsOk(s)
    && PhasesOk(s.log, s.list, s.vnodes, s.threads)
  }

  ghost predicate LocalOk(t: Thread, l: Local, s: State) {
    && TokenOk(t, l, s.refs) && SearchOk(l, s.list, s.vnodes) && VnodeOk(t, l, s.list, s.vnodes)
    && DutyOk(t, l, s.vnodes, s.log)
  }

  /** How the list mutex and the moving thread's claim to it may change together. */
  predicate MutexMove(m: ListMutex, m': ListMutex, t: Thread, at: Label, at': Label) {
    || (m' == m && RoleOf(at).list == RoleOf(at').list)
    || (m == Open && m' == HeldBy(t) && RoleOf(at').list)
    || (RoleOf(at).list && m' == Open && !RoleOf(at').list)
  }

  // Moving from `l` to `l'` gives up nothing that the rest of the state relies on.

  predicate KeepsDuty(l: Local, l': Local) {
    !RoleOf(l.at).duty.Violated? ==> RoleOf(l'.at).duty == RoleOf(l.at).duty && l'.v == l.v
  }

  predicate KeepsDestroyerLock(l: Local, l': Local) {
    RoleOf(l.at).lock.MineAsDestroyer? ==> RoleOf(l'.at).lock.MineAsDestroyer? && l'.v == l.v
  }

  predicate KeepsOffList(l: Local, l': Local) {
    RoleOf(l'.at).offList ==> RoleOf(l.at).offList && l'.v == l.v
  }

  predicate KeepsToken(l: Local, l': Local, vnodes: map<Address, Vnode>) {
    && (RoleOf(l.at).token ==>
         l.v in vnodes && (vnodes[l.v].state.Loaded? || (RoleOf(l'.at).token && l'.token == l.token)))
    && (l.at.Insert? ==> l'.at.Insert? && l'.token == l.token)
  }

  lemma MoveMutex(m: ListMutex, m': ListMutex, threads: map<Thread, Local>, t: Thread, l': Local)
    requires MutexOk(m, threads) && t in threads && MutexMove(m, m', t, threads[t].at, l'.at)
    ensures MutexOk(m', threads[t := l'])
  {
  }

  lemma MoveRefs(refs: map<Token, Reference>, list: seq<Address>, vnodes: map<Address, Vnode>,
                 threads: map<Thread, Local>,
                 t: Thread, l': Local)
    requires RefsOk(refs, list, vnodes, threads) && t in threads && TokenOk(t, threads[t], refs)
    requires KeepsToken(threads[t], l', vnodes)
    ensures RefsOk(refs, list, vnodes, threads[t := l'])
  {
  }

  lemma MoveLocks(vnodes: map<Address, Vnode>, refs: map<Token, Reference>, threads: map<Thread, Local>, t: Thread,
                  l': Local)
    requires LocksOk(vnodes, refs, threads) && t in threads && KeepsDestroyerLock(threads[t], l')
    ensures LocksOk(vnodes, refs, threads[t := l'])
  {
  }

  lemma MovePhases(log: seq<Event>, list: seq<Address>, vnodes: map<Address, Vnode>, threads: map<Thread, Local>,
                   t: Thread, l': Local)
    requires PhasesOk(log, list, vnodes, threads) && t in threads && KeepsDuty(threads[t], l')
    ensures PhasesOk(log, list, vnodes, threads[t := l'])
  {
  }

  lemma MoveOffList(threads: map<Thread, Local>, t: Thread, l': Local)
    requires OffListOk(threads) && t in threads && KeepsOffList(threads[t], l')
    ensures OffListOk(threads[t := l'])
  {
  }

  /** All that a step which only moves thread `t` to `l'` has to show. */
  ghost predicate MoveOk(s: State, t: Thread, l': Local, m': ListMutex) {
    && t in s.threads
    && MutexMove(s.mutex, m', t, s.threads[t].at, l'.at)
    && KeepsDuty(s.threads[t], l') && KeepsDestroyerLock(s.threads[t], l') && KeepsOffList(s.threads[t], l')
    && KeepsToken(s.threads[t], l', s.vnodes)
    && LocalOk(t, l', s)
  }

  lemma MoveKeeps(s: State, s': State, t: Thread, l': Local)
    requires Inv(s) && MoveOk(s, t, l', s'.mutex) && s' == Move(s, t, l').(mutex := s'.mutex)
    ensures Inv(s')
  {
    hide ListOk, CountsOk, RefsOk, LocksOk, PhasesOk, OffListOk, MutexOk, SearchOk, VnodeOk, DutyOk, TokenOk,
      MutexMove, KeepsDuty, KeepsDestroyerLock, KeepsOffList, KeepsToken;
    MoveMutex(s.mutex, s'.mutex, s.threads, t, l');
    MoveRefs(s.refs, s.list, s.vnodes, s.threads, t, l');
    MoveLocks(s.vnodes, s.refs, s.threads, t, l');
    MovePhases(s.log, s.list, s.vnodes, s.threads, t, l');
    MoveOffList(s.threads, t, l');
  }

  /** What the invariant says about one thread and the reference it is using. */
  lemma LocalOf(s: State, t: Thread)
    requires Inv(s) && t in s.threads
    ensures LocalOk(t, s.threads[t], s)
    ensures RoleOf(s.threads[t].at).token ==>
      s.threads[t].v in s.vnodes && (s.threads[t].v in s.list || s.threads[t].at.Insert?)
  {
    assert RoleOf(s.threads[t].at).token ==>
             RefOk(s.threads[t].token, s.refs[s.threads[t].token], s.list, s.vnodes, s.threads);
  }

  /** What the invariant says about a reference whose owner is between operations. */
  lemma HeldOk(s: State, k: Token)
    requires Inv(s) && k in s.refs && s.refs[k].owner in s.threads && s.threads[s.refs[k].owner].at.Idle?
    ensures s.refs[k].vnode in s.vnodes && s.refs[k].vnode in s.list && s.vnodes[s.refs[k].vnode].state.Loaded?
  {
    assert RefOk(k, s.refs[k], s.list, s.vnodes, s.threads);
  }

  // ------------------------------------------------ steps that only move a thread

  ghost predicate SearchMove(s: State, s': State, t: Thread) {
    (exists ino, locked :: StartGet(s, s', t, ino, locked)) || TakeList(s, s', t) || Match(s, s', t) || Fetch(s, s', t)
  }

  ghost predicate RetryMove(s: State, s': State, t: Thread) {
    SwapFails(s, s', t) || SeesZero(s, s', t) || GiveUpList(s, s', t) || Retry(s, s', t)
  }

  ghost predicate FoundMove(s: State, s': State, t: Thread) {
    LeaveListAfterHit(s, s', t) || FallAsleep(s, s', t) || FindLoadedThenLock(s, s', t)
        || LeaveListAfterInsert(s, s', t)
  }

  ghost predicate RemovalMove(s: State, s': State, t: Thread) {
    TakeListForRemoval(s, s', t) || LeaveListAfterRemoval(s, s', t)
  }

  /** Thread `t` moved from `s` to `s'` and nothing else relies on what it left behind. */
  ghost predicate MovedOk(s: State, s': State, t: Thread) {
    t in s'.threads && s' == Move(s, t, s'.threads[t]).(mutex := s'.mutex) && MoveOk(s, t, s'.threads[t], s'.mutex)
  }

  lemma SearchMoveOk(s: State, s': State, t: Thread)
    requires SearchMove(s, s', t) && LocalOk(t, s.threads[t], s)
    requires RoleOf(s.threads[t].at).token ==> s.threads[t].v in s.vnodes
    ensures MovedOk(s, s', t)
  {
    hide PhaseOf;
  }

  lemma RetryMoveOk(s: State, s': State, t: Thread)
    requires RetryMove(s, s', t) && LocalOk(t, s.threads[t], s)
    requires RoleOf(s.threads[t].at).token ==> s.threads[t].v in s.vnodes
    ensures MovedOk(s, s', t)
  {
    hide PhaseOf;
  }

  lemma FoundMoveOk(s: State, s': State, t: Thread)
    requires FoundMove(s, s', t) && LocalOk(t, s.threads[t], s)
    requires RoleOf(s.threads[t].at).token ==> s.threads[t].v in s.vnodes
    ensures MovedOk(s, s', t)
  {
    hide PhaseOf, LocalOk, MovedOk, RoleOf, LeaveListAfterHit, FallAsleep, FindLoadedThenLock, LeaveListAfterInsert;
    if LeaveListAfterHit(s, s', t) {
      LeaveListAfterHitOk(s, s', t);
    } else if FallAsleep(s, s', t) {
      FallAsleepOk(s, s', t);
    } else if FindLoadedThenLock(s, s', t) {
      FindLoadedThenLockOk(s, s', t);
    } else {
      LeaveListAfterInsertOk(s, s', t);
    }
  }

  lemma LeaveListAfterHitOk(s: State, s': State, t: Thread)
    requires LeaveListAfterHit(s, s', t) && LocalOk(t, s.threads[t], s)
    requires RoleOf(s.threads[t].at).token ==> s.threads[t].v in s.vnodes
    ensures MovedOk(s, s', t)
  {
    hide PhaseOf;
    assert s'.threads[t].v == s.threads[t].v && s'.threads[t].token == s.threads[t].token;
  }

  lemma FallAsleepOk(s: State, s': State, t: Thread)
    requires FallAsleep(s, s', t) && LocalOk(t, s.threads[t], s)
    requires RoleOf(s.threads[t].at).token ==> s.threads[t].v in s.vnodes
    ensures MovedOk(s, s', t)
  {
    hide PhaseOf;
    assert s'.threads[t].v == s.threads[t].v && s'.threads[t].token == s.threads[t].token;
  }

  lemma FindLoadedThenLockOk(s: State, s': State, t: Thread)
    requires FindLoadedThenLock(s, s', t) && LocalOk(t, s.threads[t], s)
    requires RoleOf(s.threads[t].at).token ==> s.threads[t].v in s.vnodes
    ensures MovedOk(s, s', t)
  {
    hide PhaseOf;
    assert s'.threads[t].v == s.threads[t].v && s'.threads[t].token == s.threads[t].token;
  }

  lemma LeaveListAfterInsertOk(s: State, s': State, t: Thread)
    requires LeaveListAfterInsert(s, s', t) && LocalOk(t, s.threads[t], s)
    requires RoleOf(s.threads[t].at).token ==> s.threads[t].v in s.vnodes
    ensures MovedOk(s, s', t)
  {
    hide PhaseOf;
    assert s'.threads[t].v == s.threads[t].v && s'.threads[t].token == s.threads[t].token;
  }

  lemma RemovalMoveOk(s: State, s': State, t: Thread)
    requires RemovalMove(s, s', t) && LocalOk(t, s.threads[t], s)
    requires RoleOf(s.threads[t].at).token ==> s.threads[t].v in s.vnodes
    ensures MovedOk(s, s', t)
  {
    hide PhaseOf, LocalOk, MovedOk, RoleOf, TakeListForRemoval, LeaveListAfterRemoval;
    if TakeListForRemoval(s, s', t) {
      TakeListForRemovalOk(s, s', t);
    } else {
      LeaveListAfterRemovalOk(s, s', t);
    }
  }

  lemma TakeListForRemovalOk(s: State, s': State, t: Thread)
    requires TakeListForRemoval(s, s', t) && LocalOk(t, s.threads[t], s)
    requires RoleOf(s.threads[t].at).token ==> s.threads[t].v in s.vnodes
    ensures MovedOk(s, s', t)
  {
    hide PhaseOf;
    assert s'.threads[t].v == s.threads[t].v;
  }

  lemma LeaveListAfterRemovalOk(s: State, s': State, t: Thread)
    requires LeaveListAfterRemoval(s, s', t) && LocalOk(t, s.threads[t], s)
    requires RoleOf(s.threads[t].at).token ==> s.threads[t].v in s.vnodes
    ensures MovedOk(s, s', t)
  {
    hide PhaseOf;
    assert s'.threads[t].v == s.threads[t].v;
  }

  lemma PassOk(s: State, s': State, t: Thread)
    requires Pass(s, s', t) && LocalOk(t, s.threads[t], s)
    requires RoleOf(s.threads[t].at).token ==> s.threads[t].v in s.vnodes
    ensures MovedOk(s, s', t)
  {
    hide PhaseOf;
    assert SearchOk(s'.threads[t], s.list, s.vnodes);
  }

  lemma KeepMove(s: State, s': State, t: Thread)
    requires Inv(s) && t in s.threads
    requires SearchMove(s, s', t) || Pass(s, s', t) || RetryMove(s, s', t) || FoundMove(s, s', t)
      || RemovalMove(s, s', t)
    ensures Inv(s')
  {
    hide Inv, SearchMove, Pass, RetryMove, FoundMove, RemovalMove, MoveOk, LocalOk;
    LocalOf(s, t);
    if SearchMove(s, s', t) {
      SearchMoveOk(s, s', t);
    } else if Pass(s, s', t) {
      PassOk(s, s', t);
    } else if RetryMove(s, s', t) {
      RetryMoveOk(s, s', t);
    } else if FoundMove(s, s', t) {
      FoundMoveOk(s, s', t);
    } else {
      RemovalMoveOk(s, s', t);
    }
    MoveKeeps(s, s', t, s'.threads[t]);
  }

  lemma KeepStartPut(s: State, s': State, t: Thread, k: Token)
    requires Inv(s) && StartPut(s, s', t, k)
    ensures Inv(s')
  {
    hide Inv;
    LocalOf(s, t);
    HeldOk(s, k);
    MoveKeeps(s, s', t, s'.threads[t]);
  }

  // ------------------------------------- steps that change a mutex or a reference

  /** The same vnodes, up to who holds which mutex and how often a held vnode is held. */
  ghost predicate Similar(a: map<Address, Vnode>, b: map<Address, Vnode>) {
    && a.Keys == b.Keys
    && forall v :: v in a ==> a[v].ino == b[v].ino && a[v].state == b[v].state && (a[v].count == 0 <==> b[v].count == 0)
  }

  ghost predicate SameInos(a: map<Address, Vnode>, b: map<Address, Vnode>) {
    a.Keys == b.Keys && forall v :: v in a ==> a[v].ino == b[v].ino
  }

  lemma ListSimilar(list: seq<Address>, a: map<Address, Vnode>, b: map<Address, Vnode>)
    requires ListOk(list, a) && SameInos(a, b)
    ensures ListOk(list, b)
  {
  }

  lemma PhasesSimilar(log: seq<Event>, list: seq<Address>, a: map<Address, Vnode>, b: map<Address, Vnode>,
                      threads: map<Thread, Local>)
    requires PhasesOk(log, list, a, threads) && Similar(a, b)
    ensures PhasesOk(log, list, b, threads)
  {
    forall ino ensures PhaseOk(PhaseOf(log, ino), ino, list, b, threads) {
      assert PhaseOk(PhaseOf(log, ino), ino, list, a, threads);
    }
  }

  lemma RefsSimilar(refs: map<Token, Reference>, list: seq<Address>, a: map<Address, Vnode>, b: map<Address, Vnode>,
                    threads: map<Thread, Local>)
    requires RefsOk(refs, list, a, threads) && Similar(a, b)
    ensures RefsOk(refs, list, b, threads)
  {
  }

  lemma LocalSimilar(t: Thread, l: Local, s: State, b: map<Address, Vnode>)
    requires SearchOk(l, s.list, s.vnodes) && DutyOk(t, l, s.vnodes, s.log) && SameInos(s.vnodes, b)
    ensures SearchOk(l, s.list, b) && DutyOk(t, l, b, s.log)
  {
  }

  lemma SimilarInos(a: map<Address, Vnode>, b: map<Address, Vnode>)
    requires Similar(a, b)
    ensures SameInos(a, b)
  {
  }

  /** Everything a step that leaves the list, the log and the mutex of the list alone has to show. */
  lemma UpdateKeeps(s: State, s': State, t: Thread)
    requires Inv(s) && t in s.threads && t in s'.threads
    requires s' == s.(vnodes := s'.vnodes, refs := s'.refs, threads := s.threads[t := s'.threads[t]], mutex := s'.mutex)
    requires MutexMove(s.mutex, s'.mutex, t, s.threads[t].at, s'.threads[t].at)
    requires Similar(s.vnodes, s'.vnodes)
    requires KeepsDuty(s.threads[t], s'.threads[t]) && KeepsOffList(s.threads[t], s'.threads[t])
    requires CountsOk(s'.vnodes, s'.refs) && RefsOk(s'.refs, s'.list, s'.vnodes, s'.threads)
    requires LocksOk(s'.vnodes, s'.refs, s'.threads)
    requires forall u :: u in s.threads && u != t ==>
      TokenOk(u, s.threads[u], s'.refs) && VnodeOk(u, s.threads[u], s.list, s'.vnodes)
    requires LocalOk(t, s'.threads[t], s')
    ensures Inv(s')
  {
    hide ListOk, CountsOk, RefsOk, LocksOk, PhasesOk, OffListOk, MutexOk, SearchOk, VnodeOk, DutyOk, TokenOk,
      Similar, SameInos, MutexMove, KeepsDuty, KeepsOffList;
    MoveMutex(s.mutex, s'.mutex, s.threads, t, s'.threads[t]);
    SimilarInos(s.vnodes, s'.vnodes);
    ListSimilar(s.list, s.vnodes, s'.vnodes);
    MovePhases(s.log, s.list, s.vnodes, s.threads, t, s'.threads[t]);
    PhasesSimilar(s.log, s.list, s.vnodes, s'.vnodes, s'.threads);
    MoveOffList(s.threads, t, s'.threads[t]);
    forall u | u in s.threads && u != t
      ensures SearchOk(s.threads[u], s'.list, s'.vnodes) && DutyOk(u, s.threads[u], s'.vnodes, s'.log)
    {
      LocalSimilar(u, s.threads[u], s, s'.vnodes);
    }
  }

  lemma CountsSame(a: map<Address, Vnode>, b: map<Address, Vnode>, refs: map<Token, Reference>)
    requires CountsOk(a, refs) && a.Keys == b.Keys && forall v :: v in a ==> a[v].count == b[v].count
    ensures CountsOk(b, refs)
  {
  }

  lemma LocksSet(vnodes: map<Address, Vnode>, refs: map<Token, Reference>, threads: map<Thread, Local>, t: Thread,
                 l': Local,
                 v: Address, h: Holder)
    requires LocksOk(vnodes, refs, threads) && v in vnodes && t in threads
    requires LockOk(v, h, refs, threads[t := l'])
    requires KeepsDestroyerLock(threads[t], l') || vnodes[v].lock == ByDestroyer(t)
    requires forall u ::
      u in vnodes && vnodes[u].lock == ByDestroyer(t) ==> u == v || KeepsDestroyerLock(threads[t], l')
    ensures LocksOk(vnodes[v := vnodes[v].(lock := h)], refs, threads[t := l'])
  {
  }

  /** Nobody else relies on how the mutex of `v` is held. */
  ghost predicate Undisturbed(s: State, t: Thread, v: Address, h: Holder)
    requires v in s.vnodes
  {
    forall u :: u in s.threads && u != t ==> VnodeOk(u, s.threads[u], s.list, SetLock(s, v, h).vnodes)
  }

  lemma LockKeeps(s: State, s': State, t: Thread, v: Address, h: Holder)
    requires Inv(s) && t in s.threads && t in s'.threads && v in s.vnodes
    requires s' == Move(SetLock(s, v, h), t, s'.threads[t])
    requires MutexMove(s.mutex, s.mutex, t, s.threads[t].at, s'.threads[t].at)
    requires KeepsDuty(s.threads[t], s'.threads[t]) && KeepsOffList(s.threads[t], s'.threads[t])
    requires KeepsToken(s.threads[t], s'.threads[t], s.vnodes)
    requires LocksOk(s'.vnodes, s.refs, s'.threads) && Undisturbed(s, t, v, h) && LocalOk(t, s'.threads[t], s')
    ensures Inv(s')
  {
    hide ListOk, RefsOk, LocksOk, PhasesOk, OffListOk, MutexOk, SearchOk, VnodeOk, DutyOk, TokenOk, MutexMove,
         KeepsDuty, KeepsOffList, KeepsToken, LocalOk;
    CountsSame(s.vnodes, s'.vnodes, s.refs);
    MoveRefs(s.refs, s.list, s.vnodes, s.threads, t, s'.threads[t]);
    RefsSimilar(s.refs, s.list, s.vnodes, s'.vnodes, s'.threads);
    UpdateKeeps(s, s', t);
  }

  /** A vnode somebody holds a reference to is not being destroyed. */
  lemma HeldIsAlive(s: State, k: Token)
    requires Inv(s) && k in s.refs && s.refs[k].vnode in s.vnodes && s.refs[k].vnode in s.list
    ensures var p := PhaseOf(s.log, s.vnodes[s.refs[k].vnode].ino);
            p.v == s.refs[k].vnode && (p.stage.Live? <==> s.vnodes[p.v].state.Loaded?)
            && !p.stage.Absent? && !p.stage.Dead? && !p.stage.BeingDeleted? && !p.stage.HasBeenDeleted?
    ensures s.vnodes[s.refs[k].vnode].count > 0
  {
    hide MutexOk, OffListOk, RefsOk, LocksOk, ThreadsOk, PhaseOf;
    var v := s.refs[k].vnode;
    assert k in Tokens(s.refs, v);
    assert PhaseOk(PhaseOf(s.log, s.vnodes[v].ino), s.vnodes[v].ino, s.list, s.vnodes, s.threads);
  }

  /** The inode a thread is in charge of is in the stage that goes with the thread's label. */
  lemma InCharge(s: State, t: Thread)
    requires Inv(s) && t in s.threads && !RoleOf(s.threads[t].at).duty.Violated?
    ensures var l := s.threads[t];
            l.v in s.vnodes && l.v in s.list
            && PhaseOf(s.log, s.vnodes[l.v].ino) == Phase(RoleOf(l.at).duty, l.v, t)
            && PhaseOk(Phase(RoleOf(l.at).duty, l.v, t), s.vnodes[l.v].ino, s.list, s.vnodes, s.threads)
  {
    hide MutexOk, OffListOk, RefsOk, LocksOk, CountsOk, PhaseOf;
    var l := s.threads[t];
    assert DutyOk(t, l, s.vnodes, s.log);
    assert PhaseOk(PhaseOf(s.log, s.vnodes[l.v].ino), s.vnodes[l.v].ino, s.list, s.vnodes, s.threads);
  }

  /** A thread that waits for, or has just given up, the mutex of `v` shares it with no other such thread. */
  lemma OnlyOneExpectsFree(s: State, t: Thread, u: Thread, v: Address)
    requires Inv(s) && t in s.threads && u in s.threads && t != u && v in s.vnodes && v in s.list
    requires s.threads[u].v == v && RoleOf(s.threads[u].at).lock.NobodyYet?
    ensures !(!RoleOf(s.threads[t].at).duty.Violated? && s.threads[t].v == v)
    ensures s.vnodes[v].state.Loaded? ==> forall k :: k in s.refs ==> s.refs[k].vnode != v
  {
    hide Inv, PhaseOf;
    LocalOf(s, u);
    InCharge(s, u);
    if !RoleOf(s.threads[t].at).duty.Violated? {
      InCharge(s, t);
    }
    forall k | k in s.refs && s.refs[k].vnode == v ensures s.vnodes[v].state.Loading? {
      HeldIsAlive(s, k);
    }
  }

  lemma AcquireUndisturbed(s: State, t: Thread, v: Address, k: Token)
    requires Inv(s) && t in s.threads && k in s.refs && s.refs[k] == Reference(t, v)
    requires v in s.vnodes && v in s.list && s.vnodes[v].lock == Nobody
    requires s.vnodes[v].state.Loaded? || (s.threads[t].at.LockNew? && s.threads[t].v == v)
    ensures Undisturbed(s, t, v, ByReference(k))
  {
    hide Inv, PhaseOf, RoleOf;
    forall u | u in s.threads && u != t ensures VnodeOk(u, s.threads[u], s.list, SetLock(s, v, ByReference(k)).vnodes) {
      LocalOf(s, u);
      if s.threads[u].v == v && RoleOf(s.threads[u].at).lock.NobodyYet? {
        OnlyOneExpectsFree(s, t, u, v);
        assert false;
      }
    }
  }

  lemma ReleaseUndisturbed(s: State, t: Thread, v: Address, k: Token)
    requires Inv(s) && t in s.threads && k in s.refs && s.refs[k] == Reference(t, v)
    requires v in s.vnodes && s.vnodes[v].lock == ByReference(k)
    ensures Undisturbed(s, t, v, Nobody)
  {
    hide Inv, PhaseOf, RoleOf;
    forall u | u in s.threads && u != t ensures VnodeOk(u, s.threads[u], s.list, SetLock(s, v, Nobody).vnodes) {
      LocalOf(s, u);
    }
  }

  lemma DestroyUndisturbed(s: State, t: Thread, v: Address, h: Holder)
    requires Inv(s) && t in s.threads && s.threads[t].v == v && !RoleOf(s.threads[t].at).duty.Violated?
    requires v in s.vnodes
    requires (s.vnodes[v].lock == Nobody && h == ByDestroyer(t)) || (s.vnodes[v].lock == ByDestroyer(t) && h == Nobody)
    ensures Undisturbed(s, t, v, h)
  {
    hide Inv, PhaseOf, RoleOf;
    InCharge(s, t);
    forall u | u in s.threads && u != t ensures VnodeOk(u, s.threads[u], s.list, SetLock(s, v, h).vnodes) {
      LocalOf(s, u);
      if s.threads[u].v == v && RoleOf(s.threads[u].at).lock.NobodyYet? {
        OnlyOneExpectsFree(s, t, u, v);
        assert false;
      }
    }
  }

  lemma KeepVlock(s: State, s': State, t: Thread, k: Token)
    requires Inv(s) && (Vlock(s, s', t, k) || Vunlock(s, s', t, k))
    ensures Inv(s')
  {
    hide Inv, PhaseOf;
    var v := s.refs[k].vnode;
    LocalOf(s, t);
    HeldOk(s, k);
    if Vlock(s, s', t, k) {
      AcquireUndisturbed(s, t, v, k);
    } else {
      ReleaseUndisturbed(s, t, v, k);
    }
    LocksOf(s);
    LocksSet(s.vnodes, s.refs, s.threads, t, s.threads[t], v, s'.vnodes[v].lock);
    assert s.threads[t := s.threads[t]] == s.threads;
    LockKeeps(s, s', t, v, s'.vnodes[v].lock);
  }

  lemma LocksOf(s: State)
    requires Inv(s)
    ensures LocksOk(s.vnodes, s.refs, s.threads)
  {
  }

  lemma KeepTakeNew(s: State, s': State, t: Thread)
    requires Inv(s) && TakeNew(s, s', t)
    ensures Inv(s')
  {
    hide Inv, PhaseOf;
    var l := s.threads[t];
    LocalOf(s, t);
    InCharge(s, t);
    AcquireUndisturbed(s, t, l.v, l.token);
    LocksOf(s);
    LocksSet(s.vnodes, s.refs, s.threads, t, s'.threads[t], l.v, ByReference(l.token));
    LockKeeps(s, s', t, l.v, ByReference(l.token));
  }

  lemma KeepTakeDead(s: State, s': State, t: Thread)
    requires Inv(s) && TakeDead(s, s', t)
    ensures Inv(s')
  {
    hide Inv, PhaseOf, PhaseOk, Undisturbed;
    var l := s.threads[t];
    LocalOf(s, t);
    InCharge(s, t);
    DestroyUndisturbed(s, t, l.v, ByDestroyer(t));
    LocksOf(s);
    LocksSet(s.vnodes, s.refs, s.threads, t, s'.threads[t], l.v, ByDestroyer(t));
    LockKeeps(s, s', t, l.v, ByDestroyer(t));
  }

  lemma KeepLeaveDead(s: State, s': State, t: Thread)
    requires Inv(s) && LeaveDead(s, s', t)
    ensures Inv(s')
  {
    hide Inv, PhaseOf, PhaseOk, Undisturbed;
    var l := s.threads[t];
    LocalOf(s, t);
    InCharge(s, t);
    DestroyUndisturbed(s, t, l.v, Nobody);
    LocksOf(s);
    LocksSet(s.vnodes, s.refs, s.threads, t, s'.threads[t], l.v, Nobody);
    LockKeeps(s, s', t, l.v, Nobody);
  }

  // --------------------------------------------------------- steps that are logged

  /**
   * The thread that records an event about an inode is the one in charge of it, or the phase stays, or nobody is in
   * charge.
   */
  predicate MayRecord(p: Phase, e: Event) {
    p.who == e.who || Advance(p, e) == p || p.stage.Live? || p.stage.Absent?
  }

  lemma RecordDuties(s: State, t: Thread, u: Thread, e: Event)
    requires u in s.threads && t != u && DutyOk(u, s.threads[u], s.vnodes, s.log)
    requires e.who == t && MayRecord(PhaseOf(s.log, e.ino), e)
    ensures DutyOk(u, s.threads[u], s.vnodes, s.log + [e])
  {
    hide PhaseOf;
    PhaseAfter(s.log, e);
  }

  lemma RecordPhases(s: State, t: Thread, l': Local, e: Event)
    requires PhasesOk(s.log, s.list, s.vnodes, s.threads) && t in s.threads
    requires s.threads[t].v in s.vnodes && e.ino == s.vnodes[s.threads[t].v].ino
    requires PhaseOk(Advance(PhaseOf(s.log, e.ino), e), e.ino, s.list, s.vnodes, s.threads[t := l'])
    ensures PhasesOk(s.log + [e], s.list, s.vnodes, s.threads[t := l'])
  {
    hide PhaseOf, RoleOf, Advance;
    PhaseAfter(s.log, e);
    forall ino ensures PhaseOk(PhaseOf(s.log + [e], ino), ino, s.list, s.vnodes, s.threads[t := l']) {
      assert PhaseOk(PhaseOf(s.log, ino), ino, s.list, s.vnodes, s.threads);
    }
  }

  lemma RecordKeeps(s: State, s': State, t: Thread, e: Event)
    requires Inv(s) && t in s.threads && t in s'.threads
    requires s' == s.(threads := s.threads[t := s'.threads[t]], log := s.log + [e])
    requires s.threads[t].v in s.vnodes && e.ino == s.vnodes[s.threads[t].v].ino && e.who == t
    requires MayRecord(PhaseOf(s.log, e.ino), e)
    requires PhaseOk(Advance(PhaseOf(s.log, e.ino), e), e.ino, s.list, s.vnodes, s'.threads)
    requires MutexMove(s.mutex, s.mutex, t, s.threads[t].at, s'.threads[t].at)
    requires KeepsDestroyerLock(s.threads[t], s'.threads[t]) && KeepsOffList(s.threads[t], s'.threads[t])
    requires KeepsToken(s.threads[t], s'.threads[t], s.vnodes)
    requires LocalOk(t, s'.threads[t], s')
    ensures Inv(s')
  {
    hide ListOk, CountsOk, RefsOk, LocksOk, PhasesOk, OffListOk, MutexOk, SearchOk, VnodeOk, DutyOk, TokenOk,
      MutexMove, KeepsDestroyerLock, KeepsOffList, KeepsToken, PhaseOk, PhaseOf, MayRecord, Advance;
    MoveMutex(s.mutex, s.mutex, s.threads, t, s'.threads[t]);
    MoveRefs(s.refs, s.list, s.vnodes, s.threads, t, s'.threads[t]);
    MoveLocks(s.vnodes, s.refs, s.threads, t, s'.threads[t]);
    MoveOffList(s.threads, t, s'.threads[t]);
    RecordPhases(s, t, s'.threads[t], e);
    forall u | u in s.threads && u != t ensures DutyOk(u, s.threads[u], s.vnodes, s'.log) {
      RecordDuties(s, t, u, e);
    }
  }

  predicate BeforeLoaded(g: Stage) {
    g.Listed? || g.BeingRead? || g.HasBeenRead?
  }

  predicate AfterZero(g: Stage) {
    g.Dead? || g.BeingDeleted? || g.HasBeenDeleted?
  }

  /** The thread in charge of an inode takes it from one stage to the next. */
  lemma Handover(s: State, s': State, t: Thread, l': Local, e: Event)
    requires Inv(s) && t in s.threads && s.threads[t].v in s.vnodes
    requires var l := s.threads[t]; var g, g' := RoleOf(l.at).duty, RoleOf(l'.at).duty;
      && l' == l.(at := l'.at) && RoleOf(l'.at) == RoleOf(l.at).(duty := g') && !RoleOf(l.at).list
      && e.ino == s.vnodes[l.v].ino && e.who == t && Advance(Phase(g, l.v, t), e) == Phase(g', l.v, t)
      && ((BeforeLoaded(g) && BeforeLoaded(g')) || (AfterZero(g) && AfterZero(g')))
    requires s' == s.(threads := s.threads[t := l'], log := s.log + [e])
    ensures Inv(s')
  {
    hide Inv, PhaseOf, RoleOf, Advance;
    LocalOf(s, t);
    InCharge(s, t);
    PhaseAfter(s.log, e);
    RecordKeeps(s, s', t, e);
  }

  lemma KeepStartReading(s: State, s': State, t: Thread)
    requires Inv(s) && StartReading(s, s', t)
    ensures Inv(s')
  {
    hide Inv;
    var l := s.threads[t];
    Handover(s, s', t, l.(at := EndRead), Event(ReadBegun, s.vnodes[l.v].ino, l.v, t));
  }

  lemma KeepStopReading(s: State, s': State, t: Thread)
    requires Inv(s) && StopReading(s, s', t)
    ensures Inv(s')
  {
    hide Inv;
    var l := s.threads[t];
    Handover(s, s', t, l.(at := SetLoaded), Event(ReadEnded, s.vnodes[l.v].ino, l.v, t));
  }

  lemma KeepStartDeleting(s: State, s': State, t: Thread)
    requires Inv(s) && StartDeleting(s, s', t)
    ensures Inv(s')
  {
    hide Inv;
    var l := s.threads[t];
    Handover(s, s', t, l.(at := EndDelete), Event(DeleteBegun, s.vnodes[l.v].ino, l.v, t));
  }

  lemma KeepStopDeleting(s: State, s': State, t: Thread)
    requires Inv(s) && StopDeleting(s, s', t)
    ensures Inv(s')
  {
    hide Inv;
    var l := s.threads[t];
    Handover(s, s', t, l.(at := UnlockDead), Event(DeleteEnded, s.vnodes[l.v].ino, l.v, t));
  }

  /** Returning a loaded vnode through a reference keeps the invariant. */
  lemma KeepReturn(s: State, s': State, t: Thread, l': Local, k: Token)
    requires Inv(s) && t in s.threads && k in s.refs && s.refs[k].vnode == s.threads[t].v
    requires s.threads[t].v in s.vnodes && s.threads[t].v in s.list && s.vnodes[s.threads[t].v].state.Loaded?
    requires s.threads[t].at.TestLoaded? || s.threads[t].at.Idle?
    requires l' == s.threads[t].(at := Idle) && s' == Record(Move(s, t, l'), Returned, l'.v, t)
    ensures Inv(s')
  {
    hide Inv, PhaseOf;
    LocalOf(s, t);
    HeldIsAlive(s, k);
    PhaseIn(s, l'.v);
    RecordKeeps(s, s', t, s'.log[|s.log|]);
  }

  lemma PhaseIn(s: State, v: Address)
    requires Inv(s) && v in s.vnodes
    ensures PhaseOk(PhaseOf(s.log, s.vnodes[v].ino), s.vnodes[v].ino, s.list, s.vnodes, s.threads)
  {
  }

  lemma KeepFindLoaded(s: State, s': State, t: Thread)
    requires Inv(s) && FindLoaded(s, s', t)
    ensures Inv(s')
  {
    hide Inv, PhaseOf;
    LocalOf(s, t);
    KeepReturn(s, s', t, s'.threads[t], s.threads[t].token);
  }

  lemma KeepTakeVnode(s: State, s': State, t: Thread)
    requires Inv(s) && TakeVnode(s, s', t)
    ensures Inv(s')
  {
    hide Inv, PhaseOf;
    var l := s.threads[t];
    LocalOf(s, t);
    var s1 := Move(SetLock(s, l.v, ByReference(l.token)), t, l.(at := Idle));
    AcquireUndisturbed(s, t, l.v, l.token);
    LocksOf(s);
    LocksSet(s.vnodes, s.refs, s.threads, t, l.(at := Idle), l.v, ByReference(l.token));
    LockKeeps(s, s1, t, l.v, ByReference(l.token));
    assert s1.threads[t := l.(at := Idle)] == s1.threads;
    KeepReturn(s1, s', t, l.(at := Idle), l.token);
  }

  lemma KeepReturnNew(s: State, s': State, t: Thread)
    requires Inv(s) && ReturnNew(s, s', t)
    ensures Inv(s')
  {
    hide Inv, PhaseOf;
    var l := s.threads[t];
    LocalOf(s, t);
    var s1 := Move(if l.locked then s else SetLock(s, l.v, Nobody), t, l.(at := Idle));
    if l.locked {
      MoveKeeps(s, s1, t, l.(at := Idle));
    } else {
      ReleaseUndisturbed(s, t, l.v, l.token);
      LocksOf(s);
      LocksSet(s.vnodes, s.refs, s.threads, t, l.(at := Idle), l.v, Nobody);
      LockKeeps(s, s1, t, l.v, Nobody);
    }
    assert s1.threads[t := l.(at := Idle)] == s1.threads;
    KeepReturn(s1, s', t, l.(at := Idle), l.token);
  }

  // ---------------------------------------------- steps that add or drop a reference

  lemma CountsAdd(vnodes: map<Address, Vnode>, refs: map<Token, Reference>, v: Address, vn: Vnode, k: Token, t: Thread)
    requires k !in refs && forall u :: u in vnodes && u != v ==> vnodes[u].count == |Tokens(refs, u)|
    requires vn.count == |Tokens(refs, v)| + 1
    ensures CountsOk(vnodes[v := vn], refs[k := Reference(t, v)])
  {
    var refs' := refs[k := Reference(t, v)];
    assert Tokens(refs', v) == Tokens(refs, v) + {k};
    forall u | u != v ensures Tokens(refs', u) == Tokens(refs, u) {
    }
  }

  lemma CountsDrop(vnodes: map<Address, Vnode>, refs: map<Token, Reference>, v: Address, k: Token)
    requires CountsOk(vnodes, refs) && v in vnodes && k in refs && refs[k].vnode == v
    ensures CountsOk(vnodes[v := vnodes[v].(count := vnodes[v].count - 1)], refs - {k})
  {
    assert Tokens(refs - {k}, v) == Tokens(refs, v) - {k};
    forall u | u != v ensures Tokens(refs - {k}, u) == Tokens(refs, u) {
    }
  }

  /** The part of the invariant that reference counting is about. */
  lemma CountsOf(s: State)
    requires Inv(s)
    ensures CountsOk(s.vnodes, s.refs) && RefsOk(s.refs, s.list, s.vnodes, s.threads)
  {
  }

  /** Another reference to a vnode that is held already disturbs nobody. */
  lemma AddUndisturbed(s: State, s': State, t: Thread, v: Address, k: Token, u: Thread)
    requires v in s.vnodes && s.vnodes[v].count > 0 && k !in s.refs && u in s.threads && LocalOk(u, s.threads[u], s)
    requires s'.vnodes == AddReference(s, t, v, k).vnodes && s'.refs == AddReference(s, t, v, k).refs
    ensures TokenOk(u, s.threads[u], s'.refs) && VnodeOk(u, s.threads[u], s.list, s'.vnodes)
  {
    hide RoleOf, PhaseOf;
  }

  lemma AddRefs(s: State, t: Thread, v: Address, k: Token, vnodes: map<Address, Vnode>, threads: map<Thread, Local>)
    requires RefsOk(s.refs, s.list, vnodes, threads) && LocksOk(s.vnodes, s.refs, threads) && k !in s.refs
    requires v in s.vnodes && vnodes == AddReference(s, t, v, k).vnodes
    requires RefOk(k, Reference(t, v), s.list, vnodes, threads)
    ensures RefsOk(s.refs[k := Reference(t, v)], s.list, vnodes, threads)
    ensures LocksOk(vnodes, s.refs[k := Reference(t, v)], threads)
  {
    hide RoleOf, RefOk;
  }

  lemma KeepAddReference(s: State, s': State, t: Thread, v: Address, k: Token, l': Local)
    requires Inv(s) && t in s.threads && v in s.vnodes && v in s.list && s.vnodes[v].count > 0 && k !in s.refs
    requires s' == Move(AddReference(s, t, v, k), t, l')
    requires MoveOk(s.(refs := s.refs[k := Reference(t, v)]), t, l', s.mutex)
    requires s.vnodes[v].state.Loading? ==> RoleOf(l'.at).token && l'.token == k
    ensures Inv(s')
  {
    hide Inv, RoleOf, PhaseOf, CountsOk, RefsOk, LocksOk, TokenOk, SearchOk, VnodeOk, DutyOk,
      KeepsDuty, KeepsDestroyerLock, KeepsOffList, KeepsToken, MutexMove;
    CountsOf(s);
    AddCount(s, v, k, t);
    LocalOf(s, t);
    MoveRefs(s.refs, s.list, s.vnodes, s.threads, t, l');
    assert Similar(s.vnodes, s'.vnodes);
    RefsSimilar(s.refs, s.list, s.vnodes, s'.vnodes, s'.threads);
    LocksOf(s);
    MoveLocks(s.vnodes, s.refs, s.threads, t, l');
    AddRefs(s, t, v, k, s'.vnodes, s'.threads);
    forall u | u in s.threads && u != t
      ensures TokenOk(u, s.threads[u], s'.refs) && VnodeOk(u, s.threads[u], s.list, s'.vnodes)
    {
      LocalOf(s, u);
      AddUndisturbed(s, s', t, v, k, u);
    }
    AddLocal(s, s', t, v, k, l');
    UpdateKeeps(s, s', t);
  }

  lemma AddCount(s: State, v: Address, k: Token, t: Thread)
    requires CountsOk(s.vnodes, s.refs) && v in s.vnodes && k !in s.refs
    ensures CountsOk(AddReference(s, t, v, k).vnodes, AddReference(s, t, v, k).refs)
  {
    CountsAdd(s.vnodes, s.refs, v, AddReference(s, t, v, k).vnodes[v], k, t);
  }

  lemma AddLocal(s: State, s': State, t: Thread, v: Address, k: Token, l': Local)
    requires v in s.vnodes && s.vnodes[v].count > 0
    requires LocalOk(t, l', s.(refs := s.refs[k := Reference(t, v)])) && s' == Move(AddReference(s, t, v, k), t, l')
    ensures LocalOk(t, l', s')
  {
    hide RoleOf, PhaseOf;
  }

  lemma KeepVref(s: State, s': State, t: Thread, k: Token, extra: Token)
    requires Inv(s) && Vref(s, s', t, k, extra)
    ensures Inv(s')
  {
    hide Inv, PhaseOf;
    LocalOf(s, t);
    HeldOk(s, k);
    HeldIsAlive(s, k);
    assert s.threads[t := s.threads[t]] == s.threads;
    KeepAddReference(s, s', t, s.refs[k].vnode, extra, s.threads[t]);
  }

  lemma KeepSwap(s: State, s': State, t: Thread, k: Token)
    requires Inv(s) && SwapSucceeds(s, s', t, k)
    ensures Inv(s')
  {
    hide Inv, PhaseOf;
    LocalOf(s, t);
    NonNegative(s, s.threads[t].v);
    KeepAddReference(s, s', t, s.threads[t].v, k, s'.threads[t]);
  }

  lemma NonNegative(s: State, v: Address)
    requires Inv(s) && v in s.vnodes
    ensures s.vnodes[v].count >= 0
  {
    assert s.vnodes[v].count == |Tokens(s.refs, v)|;
  }

  lemma DropRefs(s: State, s': State, t: Thread, threads: map<Thread, Local>)
    requires RefsOk(s.refs, s.list, s.vnodes, threads) && LocksOk(s.vnodes, s.refs, threads)
    requires t in s.threads && s.threads[t].v in s.vnodes && TokenOk(t, s.threads[t], s.refs)
    requires s.threads[t].at.Decrement?
    requires VnodeOk(t, s.threads[t], s.list, s.vnodes)
    requires s'.vnodes == DropReference(s, s.threads[t].v, s.threads[t].token).vnodes
    ensures RefsOk(s.refs - {s.threads[t].token}, s.list, s'.vnodes, threads)
    ensures LocksOk(s'.vnodes, s.refs - {s.threads[t].token}, threads)
  {
  }

  lemma DropUndisturbed(s: State, s': State, t: Thread, u: Thread)
    requires t in s.threads && u in s.threads && u != t && LocalOk(u, s.threads[u], s) && LocalOk(t, s.threads[t], s)
    requires s.threads[t].at.Decrement? && s.threads[t].v in s.vnodes && s.threads[t].v in s.list
    requires s'.vnodes == DropReference(s, s.threads[t].v, s.threads[t].token).vnodes
    ensures TokenOk(u, s.threads[u], s.refs - {s.threads[t].token}) && VnodeOk(u, s.threads[u], s.list, s'.vnodes)
  {
    hide PhaseOf;
  }

  lemma KeepPutOne(s: State, s': State, t: Thread)
    requires Inv(s) && PutOne(s, s', t)
    ensures Inv(s')
  {
    hide Inv, PhaseOf, CountsOk, RefsOk, LocksOk;
    var l := s.threads[t];
    LocalOf(s, t);
    HeldIsAlive(s, l.token);
    CountsOf(s);
    CountsDrop(s.vnodes, s.refs, l.v, l.token);
    MoveRefs(s.refs, s.list, s.vnodes, s.threads, t, s'.threads[t]);
    LocksOf(s);
    MoveLocks(s.vnodes, s.refs, s.threads, t, s'.threads[t]);
    DropRefs(s, s', t, s'.threads);
    forall u | u in s.threads && u != t
      ensures TokenOk(u, s.threads[u], s'.refs) && VnodeOk(u, s.threads[u], s.list, s'.vnodes)
    {
      LocalOf(s, u);
      DropUndisturbed(s, s', t, u);
    }
    UpdateKeeps(s, s', t);
  }

  /** The last reference goes: the inode turns from live to dead. */
  lemma DeadPhases(s: State, s': State, t: Thread)
    requires PhasesOk(s.log, s.list, s.vnodes, s.threads) && PutLast(s, s', t) && s.threads[t].v in s.list
    requires var p := PhaseOf(s.log, s.vnodes[s.threads[t].v].ino); p.stage.Live? && p.v == s.threads[t].v
    ensures PhasesOk(s'.log, s'.list, s'.vnodes, s'.threads)
  {
    hide PhaseOf;
    PhaseAfter(s.log, s'.log[|s.log|]);
    forall ino ensures PhaseOk(PhaseOf(s'.log, ino), ino, s'.list, s'.vnodes, s'.threads) {
      assert PhaseOk(PhaseOf(s.log, ino), ino, s.list, s.vnodes, s.threads);
    }
  }

  lemma KeepPutLast(s: State, s': State, t: Thread)
    requires Inv(s) && PutLast(s, s', t)
    ensures Inv(s')
  {
    hide Inv, PhaseOf, CountsOk, RefsOk, LocksOk, PhasesOk, ListOk, OffListOk, MutexOk, SearchOk, Advance;
    var l, l' := s.threads[t], s'.threads[t];
    LocalOf(s, t);
    HeldIsAlive(s, l.token);
    CountsOf(s);
    CountsDrop(s.vnodes, s.refs, l.v, l.token);
    MoveRefs(s.refs, s.list, s.vnodes, s.threads, t, l');
    LocksOf(s);
    MoveLocks(s.vnodes, s.refs, s.threads, t, l');
    DropRefs(s, s', t, s'.threads);
    RestOf(s);
    DeadPhases(s, s', t);
    ListSimilar(s.list, s.vnodes, s'.vnodes);
    MoveMutex(s.mutex, s.mutex, s.threads, t, l');
    MoveOffList(s.threads, t, l');
    assert DutyOk(t, l', s'.vnodes, s'.log) && VnodeOk(t, l', s.list, s'.vnodes) && SearchOk(l', s.list, s'.vnodes) by {
      LastIsUnlocked(s, t);
      DeadLocal(s, s', t);
    }
    forall u | u in s.threads && u != t
      ensures TokenOk(u, s.threads[u], s'.refs) && VnodeOk(u, s.threads[u], s.list, s'.vnodes)
      ensures SearchOk(s.threads[u], s.list, s'.vnodes) && DutyOk(u, s.threads[u], s'.vnodes, s'.log)
    {
      LocalOf(s, u);
      DropUndisturbed(s, s', t, u);
      LocalSimilar(u, s.threads[u], s, s'.vnodes);
      RecordDuties(s.(vnodes := s'.vnodes), t, u, Event(CountReachedZero, s.vnodes[l.v].ino, l.v, t));
    }
    Assemble(s');
  }

  /** The parts of the invariant that every step has to look at. */
  lemma RestOf(s: State)
    requires Inv(s)
    ensures MutexOk(s.mutex, s.threads) && ListOk(s.list, s.vnodes) && OffListOk(s.threads)
    ensures PhasesOk(s.log, s.list, s.vnodes, s.threads)
  {
  }

  lemma Assemble(s: State)
    requires MutexOk(s.mutex, s.threads) && ListOk(s.list, s.vnodes) && CountsOk(s.vnodes, s.refs)
    requires OffListOk(s.threads)
    requires RefsOk(s.refs, s.list, s.vnodes, s.threads) && LocksOk(s.vnodes, s.refs, s.threads)
    requires PhasesOk(s.log, s.list, s.vnodes, s.threads)
    requires forall t :: t in s.threads ==> TokenOk(t, s.threads[t], s.refs)
    requires forall t :: t in s.threads ==> SearchOk(s.threads[t], s.list, s.vnodes)
    requires forall t :: t in s.threads ==> VnodeOk(t, s.threads[t], s.list, s.vnodes)
    requires forall t :: t in s.threads ==> DutyOk(t, s.threads[t], s.vnodes, s.log)
    ensures Inv(s)
  {
  }

  /** Nobody can be inside the mutex of a vnode whose last reference is being put. */
  lemma LastIsUnlocked(s: State, t: Thread)
    requires Inv(s) && WorksOn(s, t, Decrement) && s.vnodes[s.threads[t].v].count == 1
    ensures s.vnodes[s.threads[t].v].lock == Nobody
  {
    hide Inv, PhaseOf, RefsOk;
    var l := s.threads[t];
    LocalOf(s, t);
    HeldIsAlive(s, l.token);
    CountsOf(s);
    LocksOf(s);
    assert LockOk(l.v, s.vnodes[l.v].lock, s.refs, s.threads);
    var h, others := s.vnodes[l.v].lock, Tokens(s.refs, l.v) - {l.token};
    assert |others| == 0;
    assert forall k :: k in s.refs && s.refs[k].vnode == l.v ==> k == l.token || k in others;
    if h.ByDestroyer? {
      InCharge(s, h.thread);
    }
  }

  lemma DeadLocal(s: State, s': State, t: Thread)
    requires PutLast(s, s', t) && LocalOk(t, s.threads[t], s) && s.threads[t].v in s.list
    requires var p := PhaseOf(s.log, s.vnodes[s.threads[t].v].ino); p.stage.Live? && p.v == s.threads[t].v
    requires s.vnodes[s.threads[t].v].lock == Nobody
    ensures DutyOk(t, s'.threads[t], s'.vnodes, s'.log) && VnodeOk(t, s'.threads[t], s.list, s'.vnodes)
    ensures SearchOk(s'.threads[t], s.list, s'.vnodes)
  {
    hide PhaseOf;
    PhaseAfter(s.log, Event(CountReachedZero, s.vnodes[s.threads[t].v].ino, s.threads[t].v, t));
  }

  // --------------------------------------------------- steps that change the list

  lemma LoadedPhases(s: State, s': State, t: Thread)
    requires PhasesOk(s.log, s.list, s.vnodes, s.threads) && MarkLoaded(s, s', t) && LocalOk(t, s.threads[t], s)
    ensures PhasesOk(s'.log, s'.list, s'.vnodes, s'.threads)
  {
    hide PhaseOf;
    PhaseAfter(s.log, Event(BecameLoaded, s.vnodes[s.threads[t].v].ino, s.threads[t].v, t));
    forall ino ensures PhaseOk(PhaseOf(s'.log, ino), ino, s'.list, s'.vnodes, s'.threads) {
      assert PhaseOk(PhaseOf(s.log, ino), ino, s.list, s.vnodes, s.threads);
    }
  }

  lemma LoadedUndisturbed(s: State, s': State, t: Thread, u: Thread)
    requires MarkLoaded(s, s', t) && u in s.threads && u != t && s.threads[t].v in s.list
    requires LocalOk(t, s.threads[t], s) && LocalOk(u, s.threads[u], s)
    ensures LocalOk(u, s.threads[u], s')
  {
    hide PhaseOf, RoleOf;
    var l := s.threads[t];
    LocalSimilar(u, s.threads[u], s, s'.vnodes);
    RecordDuties(s.(vnodes := s'.vnodes), t, u, Event(BecameLoaded, s.vnodes[l.v].ino, l.v, t));
  }

  lemma LoadedRefs(s: State, s': State, t: Thread)
    requires RefsOk(s.refs, s.list, s.vnodes, s.threads) && MarkLoaded(s, s', t) && LocalOk(t, s.threads[t], s)
    ensures RefsOk(s'.refs, s'.list, s'.vnodes, s'.threads)
  {
    hide PhaseOf;
  }

  lemma LoadedLocal(s: State, s': State, t: Thread)
    requires MarkLoaded(s, s', t) && LocalOk(t, s.threads[t], s)
    ensures LocalOk(t, s'.threads[t], s')
  {
    hide PhaseOf;
  }

  lemma KeepMarkLoaded(s: State, s': State, t: Thread)
    requires Inv(s) && MarkLoaded(s, s', t)
    ensures Inv(s')
  {
    hide Inv, PhaseOf, CountsOk, RefsOk, LocksOk, PhasesOk, ListOk, OffListOk, MutexOk, Advance, TokenOk, VnodeOk,
         SearchOk, DutyOk;
    var l' := s'.threads[t];
    LocalOf(s, t);
    CountsOf(s);
    LocksOf(s);
    RestOf(s);
    CountsSame(s.vnodes, s'.vnodes, s.refs);
    LoadedRefs(s, s', t);
    MoveLocks(s.vnodes, s.refs, s.threads, t, l');
    assert LocksOk(s'.vnodes, s'.refs, s'.threads) by {
      SameLocks(s.vnodes, s'.vnodes, s.refs, s'.threads);
    }
    LoadedPhases(s, s', t);
    ListSimilar(s.list, s.vnodes, s'.vnodes);
    MoveMutex(s.mutex, s.mutex, s.threads, t, l');
    MoveOffList(s.threads, t, l');
    LoadedLocal(s, s', t);
    forall u | u in s.threads && u != t ensures LocalOk(u, s.threads[u], s') {
      LocalOf(s, u);
      LoadedUndisturbed(s, s', t, u);
    }
    Assemble(s');
  }

  lemma SameLocks(a: map<Address, Vnode>, b: map<Address, Vnode>, refs: map<Token, Reference>,
                  threads: map<Thread, Local>)
    requires LocksOk(a, refs, threads) && b.Keys <= a.Keys && forall v :: v in b ==> a[v].lock == b[v].lock
    ensures LocksOk(b, refs, threads)
  {
  }

  /** While `t` holds the list mutex, no other thread searches the list or is about to extend it. */
  lemma AloneOnList(s: State, t: Thread, u: Thread, list: seq<Address>)
    requires MutexOk(s.mutex, s.threads) && t in s.threads && u in s.threads && t != u && RoleOf(s.threads[t].at).list
    ensures SearchOk(s.threads[u], list, s.vnodes)
  {
    hide RoleOf;
  }

  lemma InsertPhases(s: State, s': State, t: Thread)
    requires PhasesOk(s.log, s.list, s.vnodes, s.threads) && InsertTail(s, s', t) && LocalOk(t, s.threads[t], s)
    ensures PhasesOk(s'.log, s'.list, s'.vnodes, s'.threads)
    ensures PhaseOf(s.log, s.vnodes[s.threads[t].v].ino).stage.Absent?
  {
    hide PhaseOf;
    var l := s.threads[t];
    assert PhaseOk(PhaseOf(s.log, s.vnodes[l.v].ino), s.vnodes[l.v].ino, s.list, s.vnodes, s.threads);
    PhaseAfter(s.log, Event(Inserted, s.vnodes[l.v].ino, l.v, t));
    forall ino ensures PhaseOk(PhaseOf(s'.log, ino), ino, s'.list, s'.vnodes, s'.threads) {
      assert PhaseOk(PhaseOf(s.log, ino), ino, s.list, s.vnodes, s.threads);
    }
  }

  lemma InsertList(s: State, s': State, t: Thread)
    requires ListOk(s.list, s.vnodes) && RefsOk(s.refs, s.list, s.vnodes, s.threads)
    requires InsertTail(s, s', t) && LocalOk(t, s.threads[t], s)
    ensures ListOk(s'.list, s'.vnodes) && RefsOk(s'.refs, s'.list, s'.vnodes, s'.threads)
  {
    hide PhaseOf;
    assert forall v :: v in s'.list <==> v in s.list || v == s.threads[t].v;
  }

  lemma InsertLocal(s: State, s': State, t: Thread)
    requires InsertTail(s, s', t) && LocalOk(t, s.threads[t], s)
    requires PhaseOf(s.log, s.vnodes[s.threads[t].v].ino).stage.Absent?
    ensures LocalOk(t, s'.threads[t], s')
  {
    hide PhaseOf;
    var l := s.threads[t];
    PhaseAfter(s.log, Event(Inserted, s.vnodes[l.v].ino, l.v, t));
  }

  lemma InsertUndisturbed(s: State, s': State, t: Thread, u: Thread)
    requires InsertTail(s, s', t) && u in s.threads && u != t && LocalOk(u, s.threads[u], s)
    requires MutexOk(s.mutex, s.threads) && OffListOk(s.threads)
    requires PhaseOf(s.log, s.vnodes[s.threads[t].v].ino).stage.Absent?
    ensures LocalOk(u, s.threads[u], s')
  {
    hide PhaseOf;
    var l := s.threads[t];
    AloneOnList(s, t, u, s'.list);
    RecordDuties(s, t, u, Event(Inserted, s.vnodes[l.v].ino, l.v, t));
  }

  lemma KeepInsertTail(s: State, s': State, t: Thread)
    requires Inv(s) && InsertTail(s, s', t)
    ensures Inv(s')
  {
    hide Inv, PhaseOf, CountsOk, RefsOk, LocksOk, PhasesOk, ListOk, OffListOk, MutexOk, Advance, TokenOk, VnodeOk,
         SearchOk, DutyOk;
    var l' := s'.threads[t];
    LocalOf(s, t);
    CountsOf(s);
    LocksOf(s);
    RestOf(s);
    InsertList(s, s', t);
    InsertPhases(s, s', t);
    InsertLocal(s, s', t);
    MoveLocks(s.vnodes, s.refs, s.threads, t, l');
    MoveMutex(s.mutex, s.mutex, s.threads, t, l');
    MoveOffList(s.threads, t, l');
    forall u | u in s.threads && u != t ensures LocalOk(u, s.threads[u], s') {
      LocalOf(s, u);
      InsertUndisturbed(s, s', t, u);
    }
    Assemble(s');
  }

  lemma WithoutElements(list: seq<Address>, v: Address)
    requires forall i, j :: 0 <= i < j < |list| ==> list[i] != list[j]
    ensures forall u :: u in Without(list, v) <==> u in list && u != v
    ensures forall i, j :: 0 <= i < j < |Without(list, v)| ==> Without(list, v)[i] != Without(list, v)[j]
  {
    if list != [] && list[0] != v {
      var rest := list[1..];
      WithoutElements(rest, v);
      assert forall u :: u in list <==> u == list[0] || u in rest;
      assert list[0] !in rest;
    } else if list != [] {
      assert forall u :: u in list <==> u == v || u in list[1..];
    }
  }

  lemma RemovePhases(s: State, s': State, t: Thread)
    requires PhasesOk(s.log, s.list, s.vnodes, s.threads) && ListOk(s.list, s.vnodes)
    requires RemoveFromList(s, s', t) && LocalOk(t, s.threads[t], s)
    ensures PhasesOk(s'.log, s'.list, s'.vnodes, s'.threads)
  {
    hide PhaseOf;
    var l := s.threads[t];
    WithoutElements(s.list, l.v);
    assert PhaseOk(PhaseOf(s.log, s.vnodes[l.v].ino), s.vnodes[l.v].ino, s.list, s.vnodes, s.threads);
    PhaseAfter(s.log, Event(Removed, s.vnodes[l.v].ino, l.v, t));
    forall ino ensures PhaseOk(PhaseOf(s'.log, ino), ino, s'.list, s'.vnodes, s'.threads) {
      assert PhaseOk(PhaseOf(s.log, ino), ino, s.list, s.vnodes, s.threads);
    }
  }

  /** Nobody holds a reference to a vnode whose count is zero. */
  lemma ZeroMeansUnheld(s: State, v: Address)
    requires CountsOk(s.vnodes, s.refs) && v in s.vnodes && s.vnodes[v].count == 0
    ensures forall k :: k in s.refs ==> s.refs[k].vnode != v
  {
    assert |Tokens(s.refs, v)| == 0;
    assert forall k :: k in s.refs && s.refs[k].vnode == v ==> k in Tokens(s.refs, v);
  }

  lemma RemoveList(s: State, s': State, t: Thread)
    requires ListOk(s.list, s.vnodes) && RemoveFromList(s, s', t)
    ensures ListOk(s'.list, s'.vnodes)
  {
    WithoutElements(s.list, s.threads[t].v);
  }

  lemma RemoveRefs(s: State, s': State, t: Thread)
    requires ListOk(s.list, s.vnodes) && RefsOk(s.refs, s.list, s.vnodes, s.threads)
    requires CountsOk(s.vnodes, s.refs) && RemoveFromList(s, s', t) && s.vnodes[s.threads[t].v].count == 0
    ensures RefsOk(s'.refs, s'.list, s'.vnodes, s'.threads)
  {
    hide PhaseOf, CountsOk, ListOk, RefOk;
    var v := s.threads[t].v;
    ZeroMeansUnheld(s, v);
    forall k | k in s.refs ensures RefOk(k, s.refs[k], s'.list, s'.vnodes, s'.threads) {
      RefKept(s.list, v, k, s.refs[k], s.vnodes, s.threads, t, s'.threads[t]);
    }
  }

  lemma RefKept(list: seq<Address>, v: Address, k: Token, r: Reference, vnodes: map<Address, Vnode>,
                threads: map<Thread, Local>, t: Thread, l': Local)
    requires ListOk(list, vnodes) && RefOk(k, r, list, vnodes, threads) && r.vnode != v
    requires t in threads && threads[t].at.Remove? && l'.at.ReleaseAfterRemoval?
    ensures RefOk(k, r, Without(list, v), vnodes, threads[t := l'])
  {
    WithoutElements(list, v);
  }

  lemma RemoveLocal(s: State, s': State, t: Thread)
    requires ListOk(s.list, s.vnodes) && RemoveFromList(s, s', t) && s.vnodes[s.threads[t].v].count == 0
    ensures LocalOk(t, s'.threads[t], s')
  {
    hide PhaseOf;
    WithoutElements(s.list, s.threads[t].v);
  }

  lemma RemoveUndisturbed(s: State, s': State, t: Thread, u: Thread)
    requires RemoveFromList(s, s', t) && u in s.threads && u != t
    requires LocalOk(u, s.threads[u], s) && LocalOk(t, s.threads[t], s)
    requires MutexOk(s.mutex, s.threads) && ListOk(s.list, s.vnodes)
    ensures LocalOk(u, s.threads[u], s')
  {
    hide PhaseOf;
    var l := s.threads[t];
    WithoutElements(s.list, l.v);
    AloneOnList(s, t, u, s'.list);
    RecordDuties(s, t, u, Event(Removed, s.vnodes[l.v].ino, l.v, t));
  }

  lemma RemoveOffList(s: State, s': State, t: Thread)
    requires OffListOk(s.threads) && RemoveFromList(s, s', t) && s.threads[t].v in s.list
    requires forall u :: u in s.threads ==> VnodeOk(u, s.threads[u], s.list, s.vnodes)
    ensures OffListOk(s'.threads)
  {
    hide RoleOf;
  }

  lemma KeepRemove(s: State, s': State, t: Thread)
    requires Inv(s) && RemoveFromList(s, s', t)
    ensures Inv(s')
  {
    hide Inv, PhaseOf, CountsOk, RefsOk, LocksOk, PhasesOk, ListOk, OffListOk, MutexOk, Advance, TokenOk, VnodeOk,
         SearchOk, DutyOk;
    var l' := s'.threads[t];
    LocalOf(s, t);
    InCharge(s, t);
    CountsOf(s);
    LocksOf(s);
    RestOf(s);
    RemoveList(s, s', t);
    RemoveRefs(s, s', t);
    RemovePhases(s, s', t);
    RemoveLocal(s, s', t);
    MoveLocks(s.vnodes, s.refs, s.threads, t, l');
    MoveMutex(s.mutex, s.mutex, s.threads, t, l');
    forall u | u in s.threads ensures LocalOk(u, s.threads[u], s) {
      LocalOf(s, u);
    }
    RemoveOffList(s, s', t);
    forall u | u in s.threads && u != t ensures LocalOk(u, s.threads[u], s') {
      RemoveUndisturbed(s, s', t, u);
    }
    Assemble(s');
  }

  /** A thread that relies on the vnode it works on does not work on one that another thread is about to free. */
  lemma FreeUndisturbed(s: State, s': State, t: Thread, u: Thread)
    requires Inv(s) && FreeVnode(s, s', t) && u in s.threads && u != t
    ensures LocalOk(u, s.threads[u], s')
  {
    hide Inv, PhaseOf, RoleOf;
    LocalOf(s, t);
    LocalOf(s, u);
    RestOf(s);
    if !RoleOf(s.threads[u].at).duty.Violated? {
      InCharge(s, u);
    }
  }

  lemma FreeParts(s: State, s': State, t: Thread)
    requires FreeVnode(s, s', t) && LocalOk(t, s.threads[t], s)
    requires ListOk(s.list, s.vnodes) && CountsOk(s.vnodes, s.refs) && RefsOk(s.refs, s.list, s.vnodes, s'.threads)
    ensures ListOk(s'.list, s'.vnodes) && CountsOk(s'.vnodes, s'.refs)
    ensures RefsOk(s'.refs, s'.list, s'.vnodes, s'.threads)
  {
    hide PhaseOf;
    ZeroMeansUnheld(s, s.threads[t].v);
  }

  lemma FreePhases(s: State, s': State, t: Thread)
    requires FreeVnode(s, s', t) && LocalOk(t, s.threads[t], s) && PhasesOk(s.log, s.list, s.vnodes, s'.threads)
    ensures PhasesOk(s'.log, s'.list, s'.vnodes, s'.threads)
  {
    hide PhaseOf;
    forall ino ensures PhaseOk(PhaseOf(s'.log, ino), ino, s'.list, s'.vnodes, s'.threads) {
      assert PhaseOk(PhaseOf(s.log, ino), ino, s.list, s.vnodes, s'.threads);
    }
  }

  lemma KeepFree(s: State, s': State, t: Thread)
    requires Inv(s) && FreeVnode(s, s', t)
    ensures Inv(s')
  {
    hide Inv, PhaseOf, CountsOk, RefsOk, LocksOk, PhasesOk, ListOk, OffListOk, MutexOk;
    var l' := s'.threads[t];
    LocalOf(s, t);
    CountsOf(s);
    LocksOf(s);
    RestOf(s);
    MoveRefs(s.refs, s.list, s.vnodes, s.threads, t, l');
    FreeParts(s, s', t);
    MoveLocks(s.vnodes, s.refs, s.threads, t, l');
    SameLocks(s.vnodes, s'.vnodes, s.refs, s'.threads);
    MovePhases(s.log, s.list, s.vnodes, s.threads, t, l');
    FreePhases(s, s', t);
    MoveMutex(s.mutex, s.mutex, s.threads, t, l');
    MoveOffList(s.threads, t, l');
    forall u | u in s.threads && u != t ensures LocalOk(u, s.threads[u], s') {
      FreeUndisturbed(s, s', t, u);
    }
    Assemble(s');
  }

  lemma CreateUndisturbed(s: State, s': State, t: Thread, v: Address, k: Token, u: Thread)
    requires Create(s, s', t, v, k) && u in s.threads && LocalOk(u, s.threads[u], s) && ListOk(s.list, s.vnodes)
    ensures LocalOk(u, s.threads[u], s')
  {
    hide PhaseOf, RoleOf;
  }

  lemma CreateParts(s: State, s': State, t: Thread, v: Address, k: Token)
    requires Create(s, s', t, v, k) && LocalOk(t, s.threads[t], s)
    requires ListOk(s.list, s.vnodes) && CountsOk(s.vnodes, s.refs) && RefsOk(s.refs, s.list, s.vnodes, s.threads)
    requires LocksOk(s.vnodes, s.refs, s.threads)
    ensures ListOk(s'.list, s'.vnodes) && CountsOk(s'.vnodes, s'.refs)
    ensures RefsOk(s'.refs, s'.list, s'.vnodes, s'.threads)
    ensures LocksOk(s'.vnodes, s'.refs, s'.threads)
  {
    hide ListOk, CountsOk, RefsOk, LocksOk, LocalOk, Create;
    CreateList(s, s', t, v, k);
    CreateCounts(s, s', t, v, k);
    CreateRefs(s, s', t, v, k);
    CreateLocks(s, s', t, v, k);
  }

  lemma CreateList(s: State, s': State, t: Thread, v: Address, k: Token)
    requires Create(s, s', t, v, k) && ListOk(s.list, s.vnodes)
    ensures ListOk(s'.list, s'.vnodes)
  {
  }

  lemma CreateCounts(s: State, s': State, t: Thread, v: Address, k: Token)
    requires Create(s, s', t, v, k) && CountsOk(s.vnodes, s.refs) && RefsOk(s.refs, s.list, s.vnodes, s.threads)
    ensures CountsOk(s'.vnodes, s'.refs)
  {
    assert Tokens(s.refs, v) == {};
    CountsAdd(s.vnodes, s.refs, v, s'.vnodes[v], k, t);
  }

  lemma CreateRefs(s: State, s': State, t: Thread, v: Address, k: Token)
    requires Create(s, s', t, v, k) && LocalOk(t, s.threads[t], s) && ListOk(s.list, s.vnodes)
    requires RefsOk(s.refs, s.list, s.vnodes, s.threads)
    ensures RefsOk(s'.refs, s'.list, s'.vnodes, s'.threads)
  {
    hide PhaseOf;
  }

  lemma CreateLocks(s: State, s': State, t: Thread, v: Address, k: Token)
    requires Create(s, s', t, v, k) && LocalOk(t, s.threads[t], s) && LocksOk(s.vnodes, s.refs, s.threads)
    ensures LocksOk(s'.vnodes, s'.refs, s'.threads)
  {
    hide PhaseOf;
  }

  lemma CreatePhases(s: State, s': State, t: Thread, v: Address, k: Token)
    requires Create(s, s', t, v, k) && PhasesOk(s.log, s.list, s.vnodes, s'.threads) && ListOk(s.list, s.vnodes)
    ensures PhasesOk(s'.log, s'.list, s'.vnodes, s'.threads)
  {
    hide PhaseOf;
    forall ino ensures PhaseOk(PhaseOf(s'.log, ino), ino, s'.list, s'.vnodes, s'.threads) {
      assert PhaseOk(PhaseOf(s.log, ino), ino, s.list, s.vnodes, s'.threads);
    }
  }

  lemma CreateLocal(s: State, s': State, t: Thread, v: Address, k: Token)
    requires Create(s, s', t, v, k) && LocalOk(t, s.threads[t], s) && ListOk(s.list, s.vnodes)
    ensures LocalOk(t, s'.threads[t], s')
  {
    hide PhaseOf;
  }

  lemma CreateOffList(s: State, s': State, t: Thread, v: Address, k: Token)
    requires Create(s, s', t, v, k) && OffListOk(s.threads)
    requires forall u :: u in s.threads ==> VnodeOk(u, s.threads[u], s.list, s.vnodes)
    ensures OffListOk(s'.threads)
  {
    hide RoleOf;
  }

  lemma KeepCreate(s: State, s': State, t: Thread, v: Address, k: Token)
    requires Inv(s) && Create(s, s', t, v, k)
    ensures Inv(s')
  {
    hide Inv, PhaseOf, CountsOk, RefsOk, LocksOk, PhasesOk, ListOk, OffListOk, MutexOk, TokenOk, SearchOk, VnodeOk,
         DutyOk;
    var l' := s'.threads[t];
    LocalOf(s, t);
    CountsOf(s);
    LocksOf(s);
    RestOf(s);
    CreateParts(s, s', t, v, k);
    MovePhases(s.log, s.list, s.vnodes, s.threads, t, l');
    CreatePhases(s, s', t, v, k);
    CreateLocal(s, s', t, v, k);
    MoveMutex(s.mutex, s.mutex, s.threads, t, l');
    forall u | u in s.threads ensures LocalOk(u, s.threads[u], s) {
      LocalOf(s, u);
    }
    CreateOffList(s, s', t, v, k);
    forall u | u in s.threads && u != t ensures LocalOk(u, s.threads[u], s') {
      CreateUndisturbed(s, s', t, v, k, u);
    }
    Assemble(s');
  }

  // ------------------------------------------------------ waking up, handing over

  /** Waking a thread changes nothing that anybody relies on. */
  lemma WokenRoles(threads: map<Thread, Local>, v: Address)
    ensures var woken := WakeAll(threads, v);
      woken.Keys == threads.Keys && forall t :: t in threads ==>
        && woken[t] == threads[t].(at := woken[t].at) && RoleOf(woken[t].at) == RoleOf(threads[t].at)
        && (woken[t].at == threads[t].at || (threads[t].at.Asleep? && woken[t].at.TestLoaded?))
  {
    hide RoleOf;
  }

  lemma WakeKeeps(s: State, s': State, v: Address)
    requires Inv(s) && s' == s.(threads := WakeAll(s.threads, v))
    ensures Inv(s')
  {
    hide Inv, PhaseOf, RoleOf, WakeAll, PhasesOk, RefsOk, CountsOk, ListOk, LocksOk, MutexOk, OffListOk;
    CountsOf(s);
    RestOf(s);
    LocksOf(s);
    WokenRoles(s.threads, v);
    WakePhases(s, s', v);
    WakeRefs(s, s', v);
    WakeLocks(s, s', v);
    forall u | u in s'.threads ensures LocalOk(u, s'.threads[u], s') {
      LocalOf(s, u);
    }
    Assemble(s');
  }

  lemma WakeLocks(s: State, s': State, v: Address)
    requires LocksOk(s.vnodes, s.refs, s.threads) && MutexOk(s.mutex, s.threads) && OffListOk(s.threads)
    requires s' == s.(threads := WakeAll(s.threads, v))
    ensures LocksOk(s'.vnodes, s'.refs, s'.threads) && MutexOk(s'.mutex, s'.threads) && OffListOk(s'.threads)
  {
    hide RoleOf, WakeAll;
    WokenRoles(s.threads, v);
  }

  lemma WakePhases(s: State, s': State, v: Address)
    requires PhasesOk(s.log, s.list, s.vnodes, s.threads) && s' == s.(threads := WakeAll(s.threads, v))
    ensures PhasesOk(s'.log, s'.list, s'.vnodes, s'.threads)
  {
    hide PhaseOf, RoleOf, WakeAll;
    WokenRoles(s.threads, v);
    forall ino ensures PhaseOk(PhaseOf(s'.log, ino), ino, s'.list, s'.vnodes, s'.threads) {
      assert PhaseOk(PhaseOf(s.log, ino), ino, s.list, s.vnodes, s.threads);
    }
  }

  lemma WakeRefs(s: State, s': State, v: Address)
    requires RefsOk(s.refs, s.list, s.vnodes, s.threads) && s' == s.(threads := WakeAll(s.threads, v))
    ensures RefsOk(s'.refs, s'.list, s'.vnodes, s'.threads)
  {
    hide RoleOf, WakeAll;
    WokenRoles(s.threads, v);
  }

  lemma KeepWake(s: State, s': State, t: Thread)
    requires Inv(s) && WakeWaiters(s, s', t)
    ensures Inv(s')
  {
    hide Inv, PhaseOf, WakeAll, MoveOk, LocalOk, RoleOf;
    var s1 := s.(threads := WakeAll(s.threads, s.threads[t].v));
    WakeKeeps(s, s1, s.threads[t].v);
    WokenRoles(s.threads, s.threads[t].v);
    LocalOf(s1, t);
    WakerMoveOk(s, s', s1, t);
    MoveKeeps(s1, s', t, s'.threads[t]);
  }

  lemma WakerMoveOk(s: State, s': State, s1: State, t: Thread)
    requires WakeWaiters(s, s', t) && s1 == s.(threads := WakeAll(s.threads, s.threads[t].v))
    requires t in s1.threads && LocalOk(t, s1.threads[t], s1) && s1.threads[t] == s.threads[t]
    requires RoleOf(s1.threads[t].at).token ==> s1.threads[t].v in s1.vnodes
    ensures MoveOk(s1, t, s'.threads[t], s'.mutex) && s' == Move(s1, t, s'.threads[t]).(mutex := s'.mutex)
  {
    hide PhaseOf, WakeAll;
  }

  lemma KeepGive(s: State, s': State, t: Thread, k: Token, receiver: Thread)
    requires Inv(s) && Give(s, s', t, k, receiver)
    ensures Inv(s')
  {
    hide Inv, PhaseOf, RoleOf;
    LocalOf(s, t);
    HeldOk(s, k);
    CountsOf(s);
    LocksOf(s);
    forall v ensures Tokens(s'.refs, v) == Tokens(s.refs, v) {
    }
    forall u | u in s.threads && u != t
      ensures TokenOk(u, s.threads[u], s'.refs) && VnodeOk(u, s.threads[u], s.list, s'.vnodes)
    {
      LocalOf(s, u);
    }
    assert s.threads[t := s.threads[t]] == s.threads;
    UpdateKeeps(s, s', t);
  }

  // --------------------------------------------------------------------- every run

  lemma KeepClientStep(s: State, s': State, t: Thread)
    requires Inv(s) && ClientStep(s, s', t)
    ensures Inv(s')
  {
    hide Inv, StartGet, StartPut, Vref, Vlock, Vunlock, Give;
    if ino, locked :| StartGet(s, s', t, ino, locked) {
      StartGetMoves(s, s', t, ino, locked);
      KeepMove(s, s', t);
    } else if k :| StartPut(s, s', t, k) {
      KeepStartPut(s, s', t, k);
    } else if k, extra :| Vref(s, s', t, k, extra) {
      KeepVref(s, s', t, k, extra);
    } else if k :| Vlock(s, s', t, k) || Vunlock(s, s', t, k) {
      KeepVlock(s, s', t, k);
    } else {
      var k, u :| Give(s, s', t, k, u);
      KeepGive(s, s', t, k, u);
    }
  }

  lemma StartGetMoves(s: State, s': State, t: Thread, ino: Ino, locked: bool)
    requires StartGet(s, s', t, ino, locked)
    ensures t in s.threads && SearchMove(s, s', t)
  {
  }

  lemma KeepSearchStep(s: State, s': State, t: Thread)
    requires Inv(s) && t in s.threads && (SearchStep(s, s', t) || FoundStep(s, s', t))
    ensures Inv(s')
  {
    hide Inv, SwapSucceeds, FindLoaded, TakeVnode, TakeList, Pass, Match, Fetch, SwapFails, SeesZero, GiveUpList, Retry,
      LeaveListAfterHit, FallAsleep, FindLoadedThenLock, StartGet, LeaveListAfterInsert;
    if k :| SwapSucceeds(s, s', t, k) {
      KeepSwap(s, s', t, k);
    } else if FindLoaded(s, s', t) {
      KeepFindLoaded(s, s', t);
    } else if TakeVnode(s, s', t) {
      KeepTakeVnode(s, s', t);
    } else {
      KeepMove(s, s', t);
    }
  }

  lemma KeepCreateStep(s: State, s': State, t: Thread)
    requires Inv(s) && t in s.threads && CreateStep(s, s', t)
    ensures Inv(s')
  {
    hide Inv, Create, InsertTail, TakeNew, LeaveListAfterInsert, StartReading, StopReading, MarkLoaded, WakeWaiters,
         ReturnNew,
      LeaveListAfterHit, FallAsleep, FindLoadedThenLock;
    if v, k :| Create(s, s', t, v, k) {
      KeepCreate(s, s', t, v, k);
    } else if InsertTail(s, s', t) {
      KeepInsertTail(s, s', t);
    } else if TakeNew(s, s', t) {
      KeepTakeNew(s, s', t);
    } else if StartReading(s, s', t) {
      KeepStartReading(s, s', t);
    } else if StopReading(s, s', t) {
      KeepStopReading(s, s', t);
    } else if MarkLoaded(s, s', t) {
      KeepMarkLoaded(s, s', t);
    } else if WakeWaiters(s, s', t) {
      KeepWake(s, s', t);
    } else if ReturnNew(s, s', t) {
      KeepReturnNew(s, s', t);
    } else {
      KeepMove(s, s', t);
    }
  }

  lemma KeepPutStep(s: State, s': State, t: Thread)
    requires Inv(s) && t in s.threads && (PutStep(s, s', t) || UnlinkStep(s, s', t))
    ensures Inv(s')
  {
    hide Inv, PutOne, PutLast, TakeDead, StartDeleting, StopDeleting, LeaveDead, RemoveFromList, FreeVnode,
      TakeListForRemoval, LeaveListAfterRemoval;
    if PutOne(s, s', t) {
      KeepPutOne(s, s', t);
    } else if PutLast(s, s', t) {
      KeepPutLast(s, s', t);
    } else if TakeDead(s, s', t) {
      KeepTakeDead(s, s', t);
    } else if StartDeleting(s, s', t) {
      KeepStartDeleting(s, s', t);
    } else if StopDeleting(s, s', t) {
      KeepStopDeleting(s, s', t);
    } else if LeaveDead(s, s', t) {
      KeepLeaveDead(s, s', t);
    } else if RemoveFromList(s, s', t) {
      KeepRemove(s, s', t);
    } else if FreeVnode(s, s', t) {
      KeepFree(s, s', t);
    } else {
      KeepMove(s, s', t);
    }
  }

  lemma StepperExists(s: State, s': State, t: Thread)
    requires StepOf(s, s', t)
    ensures t in s.threads
  {
  }

  /** Every step of every thread keeps the invariant. */
  lemma StepKeepsInv(s: State, s': State)
    ensures Inv(s) && Next(s, s') ==> Inv(s')
  {
    hide Inv, ClientStep, SearchStep, FoundStep, CreateStep, PutStep, UnlinkStep;
    if Inv(s) && Next(s, s') {
      var t :| StepOf(s, s', t);
      StepperExists(s, s', t);
      if ClientStep(s, s', t) {
        KeepClientStep(s, s', t);
      } else if SearchStep(s, s', t) || FoundStep(s, s', t) {
        KeepSearchStep(s, s', t);
      } else if CreateStep(s, s', t) {
        KeepCreateStep(s, s', t);
      } else {
        KeepPutStep(s, s', t);
      }
    }
  }

  lemma InitHasInv(s: State)
    ensures Init(s) ==> Inv(s)
  {
    if Init(s) {
      forall t | t in s.threads ensures LocalOk(t, s.threads[t], s) {
      }
      assert PhasesOk(s.log, s.list, s.vnodes, s.threads);
      Assemble(s);
    }
  }

  lemma {:induction false} RunHasInv(run: seq<State>, n: nat)
    ensures IsRun(run) && n < |run| ==> Inv(run[n])
  {
    hide Inv, Init, Next;
    if IsRun(run) && n < |run| {
      if n == 0 {
        InitHasInv(run[0]);
      } else {
        RunHasInv(run, n - 1);
        StepKeepsInv(run[n - 1], run[n]);
      }
    }
  }

  // ------------------------------------------------------------- what a run shows

  /** `b` may be the next event about the inode of `a`. */
  predicate Follows(a: Event, b: Event) {
    match a.kind
    case Inserted => b == a.(kind := ReadBegun)
    case ReadBegun => b == a.(kind := ReadEnded)
    case ReadEnded => b == a.(kind := BecameLoaded)
    case BecameLoaded => b.v == a.v && (b.kind.Returned? || b.kind.CountReachedZero?)
    case Returned => b.v == a.v && (b.kind.Returned? || b.kind.CountReachedZero?)
    case CountReachedZero => b == a.(kind := DeleteBegun)
    case DeleteBegun => b == a.(kind := DeleteEnded)
    case DeleteEnded => b == a.(kind := Removed)
    case Removed => b.kind.Inserted?
  }

  /** The events of each inode follow one another in the order of a vnode's life. */
  ghost predicate LifeCycle(log: seq<Event>) {
    forall j :: 0 <= j < |log| ==> NextInLife(log, j)
  }

  ghost predicate NextInLife(log: seq<Event>, j: nat)
    requires j < |log|
  {
    || (log[j].kind.Inserted? && forall m :: 0 <= m < j ==> log[m].ino != log[j].ino)
    || (exists i :: 0 <= i < j && log[i].ino == log[j].ino && Follows(log[i], log[j])
                    && forall m :: i < m < j ==> log[m].ino != log[j].ino)
  }

  lemma {:induction false} NeverViolatedBefore(log: seq<Event>, ino: Ino, n: nat)
    requires n <= |log| && !PhaseOf(log, ino).stage.Violated?
    ensures !PhaseOf(log[..n], ino).stage.Violated?
    decreases |log|
  {
    if n < |log| {
      var before := log[..|log| - 1];
      assert !PhaseOf(before, ino).stage.Violated?;
      NeverViolatedBefore(before, ino, n);
      assert before[..n] == log[..n];
    } else {
      assert log[..n] == log;
    }
  }

  /** No event from position `i` on is about the inode. */
  ghost predicate SilentFrom(log: seq<Event>, ino: Ino, i: int) {
    forall m :: 0 <= i <= m < |log| ==> log[m].ino != ino
  }

  /** The phase of an inode is what its latest event made of it. */
  lemma {:induction false} PhaseAtLatest(log: seq<Event>, ino: Ino) returns (i: int)
    requires !PhaseOf(log, ino).stage.Violated?
    ensures -1 <= i < |log| && SilentFrom(log, ino, i + 1)
    ensures i == -1 ==> PhaseOf(log, ino) == Phase(Absent, 0, 0)
    ensures i >= 0 ==> log[i].ino == ino && PhaseOf(log, ino) == Advance(PhaseOf(log[..i], ino), log[i])
  {
    hide Advance;
    if log == [] {
      i := -1;
    } else {
      var last := |log| - 1;
      if log[last].ino == ino {
        i := last;
      } else {
        i := PhaseAtLatest(log[..last], ino);
        if i >= 0 {
          assert log[..last][..i] == log[..i];
        }
        SilentLonger(log, ino, i + 1);
      }
    }
  }

  lemma SilentLonger(log: seq<Event>, ino: Ino, i: int)
    requires log != [] && SilentFrom(log[..|log| - 1], ino, i) && log[|log| - 1].ino != ino
    ensures SilentFrom(log, ino, i)
  {
    forall m | 0 <= i <= m < |log| ensures log[m].ino != ino {
      if m < |log| - 1 {
        assert log[..|log| - 1][m] == log[m];
      }
    }
  }

  lemma LifeCycleFromPhases(log: seq<Event>)
    requires forall ino :: !PhaseOf(log, ino).stage.Violated?
    ensures LifeCycle(log)
  {
    forall j | 0 <= j < |log| ensures NextInLife(log, j) {
      var ino := log[j].ino;
      var before := log[..j];
      assert log[..j + 1] == before + [log[j]];
      PhaseAfter(before, log[j]);
      NeverViolatedBefore(log, ino, j + 1);
      NeverViolatedBefore(log, ino, j);
      var i := PhaseAtLatest(before, ino);
      assert forall m :: i < m < j ==> log[m] == before[m];
      if i >= 0 {
        assert before[i] == log[i] && Follows(log[i], log[j]);
      }
    }
  }

  /** Labels at which the code reads or writes the vnode the thread works on. */
  predicate Touches(at: Label) {
    RoleOf(at).token || RoleOf(at).offList || !RoleOf(at).duty.Violated? || at.ReadCount? || at.CompareAndSwap?
  }

  /** What `vput` and `vnode_destructor` assert. */
  ghost predicate AssertsOk(s: State, t: Thread)
    requires t in s.threads
  {
    var l := s.threads[t];
    && (l.at.Decrement? ==> l.v in s.vnodes && s.vnodes[l.v].count > 0)
    && (AfterZero(RoleOf(l.at).duty) ==>
          && l.v in s.vnodes && s.vnodes[l.v].count == 0
          && (forall k :: k in s.refs ==> s.refs[k].vnode != l.v)   // so nobody waits for its mutex
          && l.v in s.list)
  }

  ghost predicate Safe(s: State) {
    // at most one vnode per inode is on the list
    && (forall u, v :: u in s.list && v in s.list && u != v ==>
          u in s.vnodes && v in s.vnodes && s.vnodes[u].ino != s.vnodes[v].ino)
    // the counter is the number of references
    && (forall v :: v in s.vnodes ==> s.vnodes[v].count == |Tokens(s.refs, v)|)
    // a reference that is not inside an operation of its owner leads to a listed, loaded, counted vnode
    && (forall k :: k in s.refs && s.refs[k].owner in s.threads && s.threads[s.refs[k].owner].at.Idle? ==>
          && s.refs[k].vnode in s.vnodes && s.refs[k].vnode in s.list
          && s.vnodes[s.refs[k].vnode].state.Loaded? && s.vnodes[s.refs[k].vnode].count > 0)
    // no thread touches freed memory
    && (forall t :: t in s.threads && Touches(s.threads[t].at) ==> s.threads[t].v in s.vnodes)
    && (forall t :: t in s.threads ==> AssertsOk(s, t))
    && LifeCycle(s.log)
  }

  lemma SafeThread(s: State, t: Thread)
    requires Inv(s) && t in s.threads
    ensures Touches(s.threads[t].at) ==> s.threads[t].v in s.vnodes
    ensures AssertsOk(s, t)
  {
    hide Inv, PhaseOf, CountsOk, RefsOk;
    var l := s.threads[t];
    LocalOf(s, t);
    if l.at.Decrement? {
      HeldIsAlive(s, l.token);
    }
    if !RoleOf(l.at).duty.Violated? {
      InCharge(s, t);
      if s.vnodes[l.v].count == 0 {
        CountsOf(s);
        ZeroMeansUnheld(s, l.v);
      }
    }
  }

  lemma InvIsSafe(s: State)
    requires Inv(s)
    ensures Safe(s)
  {
    hide Inv, PhaseOf, AssertsOk, Touches, LifeCycle, PhaseOk;
    CountsOf(s);
    RestOf(s);
    forall t | t in s.threads ensures (Touches(s.threads[t].at) ==> s.threads[t].v in s.vnodes) && AssertsOk(s, t) {
      SafeThread(s, t);
    }
    forall k | k in s.refs && s.refs[k].owner in s.threads && s.threads[s.refs[k].owner].at.Idle?
      ensures && s.refs[k].vnode in s.vnodes && s.refs[k].vnode in s.list
              && s.vnodes[s.refs[k].vnode].state.Loaded? && s.vnodes[s.refs[k].vnode].count > 0
    {
      HeldOk(s, k);
      HeldIsAlive(s, k);
    }
    NoViolation(s);
    LifeCycleFromPhases(s.log);
  }

  lemma NoViolation(s: State)
    requires PhasesOk(s.log, s.list, s.vnodes, s.threads)
    ensures forall ino :: !PhaseOf(s.log, ino).stage.Violated?
  {
    hide PhaseOf;
    forall ino ensures !PhaseOf(s.log, ino).stage.Violated? {
      assert PhaseOk(PhaseOf(s.log, ino), ino, s.list, s.vnodes, s.threads);
    }
  }

  /** Main result: every state of every interleaving is safe, and so is everything that has happened so far. */
  lemma EveryRunIsSafe(run: seq<State>)
    ensures IsRun(run) ==> forall n :: 0 <= n < |run| ==> Safe(run[n])
  {
    hide Inv, IsRun, Safe;
    if IsRun(run) {
      forall n | 0 <= n < |run| ensures Safe(run[n]) {
        RunHasInv(run, n);
        InvIsSafe(run[n]);
      }
    }
  }

  // ------------------------------------------------------------------ no lost wake-up

  /** A thread asleep on `v` will be woken: `v` is still loading, or its loader is about to broadcast. */
  ghost predicate WillBeWoken(s: State, v: Address) {
    && v in s.vnodes
    && (s.vnodes[v].state.Loading? || IsBroadcaster(s, PhaseOf(s.log, s.vnodes[v].ino).who, v))
  }

  predicate IsBroadcaster(s: State, w: Thread, v: Address) {
    w in s.threads && s.threads[w].at.Broadcast? && s.threads[w].v == v
  }

  ghost predicate WakeOk(s: State) {
    forall t :: t in s.threads && s.threads[t].at.Asleep? ==> WillBeWoken(s, s.threads[t].v)
  }

  /** The step neither loads a vnode nor broadcasts. */
  ghost predicate Quiet(s: State, s': State, t: Thread) {
    && t in s.threads && !s.threads[t].at.Broadcast?
    && s'.threads.Keys == s.threads.Keys && (forall u :: u in s.threads && u != t ==> s'.threads[u] == s.threads[u])
    && (s'.threads[t].at.Asleep? ==> s'.threads[t].v in s'.vnodes && s'.vnodes[s'.threads[t].v].state.Loading?)
    && (forall v :: v in s.vnodes && v in s'.vnodes ==>
         s'.vnodes[v].ino == s.vnodes[v].ino && s'.vnodes[v].state == s.vnodes[v].state)
    && (s'.log == s.log || exists e :: s'.log == s.log + [e])
  }

  lemma QuietClient(s: State, s': State, t: Thread)
    requires ClientStep(s, s', t)
    ensures Quiet(s, s', t)
  {
    hide StartGet, StartPut, Vref, Vlock, Vunlock, Give, Quiet;
    if ino, locked :| StartGet(s, s', t, ino, locked) {
      QuietStart(s, s', t);
    } else if k :| StartPut(s, s', t, k) {
      QuietStart(s, s', t);
    } else {
      QuietHolder(s, s', t);
    }
  }

  lemma QuietStart(s: State, s': State, t: Thread)
    requires (exists ino, locked :: StartGet(s, s', t, ino, locked)) || (exists k :: StartPut(s, s', t, k))
    ensures Quiet(s, s', t)
  {
  }

  lemma QuietHolder(s: State, s': State, t: Thread)
    requires (exists k, extra :: Vref(s, s', t, k, extra)) || (exists k :: Vlock(s, s', t, k))
      || (exists k :: Vunlock(s, s', t, k)) || (exists k, u :: Give(s, s', t, k, u))
    ensures Quiet(s, s', t)
  {
  }

  lemma QuietSearch(s: State, s': State, t: Thread)
    requires SearchStep(s, s', t)
    ensures Quiet(s, s', t)
  {
    hide TakeList, Pass, Match, Fetch, SwapSucceeds, SwapFails, SeesZero, GiveUpList, Retry, Quiet;
    if TakeList(s, s', t) || Pass(s, s', t) || Match(s, s', t) || Fetch(s, s', t) {
      QuietScan(s, s', t);
    } else {
      QuietSwap(s, s', t);
    }
  }

  lemma QuietScan(s: State, s': State, t: Thread)
    requires TakeList(s, s', t) || Pass(s, s', t) || Match(s, s', t) || Fetch(s, s', t)
    ensures Quiet(s, s', t)
  {
  }

  lemma QuietSwap(s: State, s': State, t: Thread)
    requires (exists k :: SwapSucceeds(s, s', t, k)) || SwapFails(s, s', t) || SeesZero(s, s', t)
      || GiveUpList(s, s', t) || Retry(s, s', t)
    ensures Quiet(s, s', t)
  {
  }

  lemma QuietFound(s: State, s': State, t: Thread)
    requires FoundStep(s, s', t)
    ensures Quiet(s, s', t)
  {
  }

  lemma QuietCreate(s: State, s': State, t: Thread)
    requires CreateStep(s, s', t) && !MarkLoaded(s, s', t) && !WakeWaiters(s, s', t)
    ensures Quiet(s, s', t)
  {
    hide Create, InsertTail, TakeNew, LeaveListAfterInsert, StartReading, StopReading, MarkLoaded, WakeWaiters,
         ReturnNew, Quiet;
    if v, k :| Create(s, s', t, v, k) {
      QuietNew(s, s', t, v, k);
    } else if InsertTail(s, s', t) || TakeNew(s, s', t) || LeaveListAfterInsert(s, s', t) {
      QuietInsert(s, s', t);
    } else {
      QuietReading(s, s', t);
    }
  }

  lemma QuietNew(s: State, s': State, t: Thread, v: Address, k: Token)
    requires Create(s, s', t, v, k)
    ensures Quiet(s, s', t)
  {
  }

  lemma QuietInsert(s: State, s': State, t: Thread)
    requires InsertTail(s, s', t) || TakeNew(s, s', t) || LeaveListAfterInsert(s, s', t)
    ensures Quiet(s, s', t)
  {
  }

  lemma QuietReading(s: State, s': State, t: Thread)
    requires StartReading(s, s', t) || StopReading(s, s', t) || ReturnNew(s, s', t)
    ensures Quiet(s, s', t)
  {
  }

  lemma QuietPut(s: State, s': State, t: Thread)
    requires PutStep(s, s', t)
    ensures Quiet(s, s', t)
  {
  }

  lemma QuietUnlink(s: State, s': State, t: Thread)
    requires UnlinkStep(s, s', t)
    ensures Quiet(s, s', t)
  {
  }

  lemma QuietKeepsSleeper(s: State, s': State, t: Thread, u: Thread)
    requires Inv(s) && Inv(s') && Quiet(s, s', t) && u in s.threads && u != t && s.threads[u].at.Asleep?
    requires WillBeWoken(s, s.threads[u].v)
    ensures WillBeWoken(s', s.threads[u].v)
  {
    hide Inv, PhaseOf;
    var v, k := s.threads[u].v, s.threads[u].token;
    LocalOf(s, u);
    LocalOf(s', u);
    HeldIsAlive(s, k);
    HeldIsAlive(s', k);
    if s'.log != s.log {
      var e :| s'.log == s.log + [e];
      PhaseAfter(s.log, e);
    }
  }

  lemma MarkLoadedKeepsWake(s: State, s': State, t: Thread)
    requires Inv(s) && Inv(s') && WakeOk(s) && MarkLoaded(s, s', t)
    ensures WakeOk(s')
  {
    hide Inv, PhaseOf;
    var l := s.threads[t];
    InCharge(s, t);
    PhaseAfter(s.log, Event(BecameLoaded, s.vnodes[l.v].ino, l.v, t));
    forall u | u in s'.threads && s'.threads[u].at.Asleep? ensures WillBeWoken(s', s'.threads[u].v) {
      LocalOf(s, u);
      HeldIsAlive(s, s.threads[u].token);
    }
  }

  lemma BroadcastKeepsWake(s: State, s': State, t: Thread)
    requires WakeOk(s) && WakeWaiters(s, s', t)
    ensures WakeOk(s')
  {
    hide PhaseOf;
  }

  lemma StepKeepsWake(s: State, s': State, t: Thread)
    requires Inv(s) && Inv(s') && WakeOk(s) && StepOf(s, s', t)
    ensures WakeOk(s')
  {
    hide Inv, ClientStep, SearchStep, FoundStep, PutStep, UnlinkStep, CreateStep, MarkLoaded, WakeWaiters, WillBeWoken;
    if MarkLoaded(s, s', t) {
      MarkLoadedKeepsWake(s, s', t);
    } else if WakeWaiters(s, s', t) {
      BroadcastKeepsWake(s, s', t);
    } else {
      StepIsQuiet(s, s', t);
      forall u | u in s'.threads && s'.threads[u].at.Asleep? ensures WillBeWoken(s', s'.threads[u].v) {
        if u != t {
          QuietKeepsSleeper(s, s', t, u);
        } else {
          LoadingWakes(s', s'.threads[u].v);
        }
      }
    }
  }

  lemma LoadingWakes(s: State, v: Address)
    requires v in s.vnodes && s.vnodes[v].state.Loading?
    ensures WillBeWoken(s, v)
  {
  }

  lemma StepIsQuiet(s: State, s': State, t: Thread)
    requires StepOf(s, s', t) && !MarkLoaded(s, s', t) && !WakeWaiters(s, s', t)
    ensures Quiet(s, s', t)
  {
    hide ClientStep, SearchStep, FoundStep, PutStep, UnlinkStep, CreateStep, MarkLoaded, WakeWaiters, Quiet;
    if ClientStep(s, s', t) {
      QuietClient(s, s', t);
    } else if SearchStep(s, s', t) {
      QuietSearch(s, s', t);
    } else if FoundStep(s, s', t) {
      QuietFound(s, s', t);
    } else if CreateStep(s, s', t) {
      QuietCreate(s, s', t);
    } else if PutStep(s, s', t) {
      QuietPut(s, s', t);
    } else {
      QuietUnlink(s, s', t);
    }
  }

  lemma {:induction false} RunWakes(run: seq<State>, n: nat)
    requires IsRun(run) && n < |run|
    ensures WakeOk(run[n])
  {
    hide Inv, StepOf, WillBeWoken;
    if n > 0 {
      RunWakes(run, n - 1);
      RunHasInv(run, n - 1);
      RunHasInv(run, n);
      assert Next(run[n - 1], run[n]);
      var t :| StepOf(run[n - 1], run[n], t);
      StepKeepsWake(run[n - 1], run[n], t);
    }
  }

  // ------------------------------------------------------------------------ progress

  ghost predicate CanStep(s: State, t: Thread) {
    exists s' :: StepOf(s, s', t)
  }

  lemma {:induction false} FreshOutside(used: set<nat>) returns (k: nat)
    ensures k !in used && forall u :: u in used ==> u < k
  {
    if used == {} {
      k := 0;
    } else {
      var u :| u in used;
      var k' := FreshOutside(used - {u});
      k := if u < k' then k' else u + 1;
      assert forall x :: x in used ==> x == u || x in used - {u};
    }
  }

  /** A thread that searches the list is never blocked while it holds the list mutex. */
  lemma SearchProgress(s: State, t: Thread)
    requires Inv(s) && t in s.threads && RoleOf(s.threads[t].at).list
    requires s.threads[t].at.Scan? || s.threads[t].at.ReadCount? || s.threads[t].at.CompareAndSwap?
      || s.threads[t].at.ReleaseForRetry?
    ensures CanStep(s, t)
  {
    hide Inv, PhaseOf;
    var l := s.threads[t];
    LocalOf(s, t);
    RestOf(s);
    var k := FreshOutside(s.refs.Keys);
    var v := FreshOutside(s.vnodes.Keys);
    if l.at.Scan? && l.i == |s.list| {
      var s' := Move(s.(vnodes := s.vnodes[v := Vnode(l.ino, 1, Loading, Nobody)],
          refs := s.refs[k := Reference(t, v)]),
                     t, l.(at := Insert, v := v, token := k));
      assert Create(s, s', t, v, k);
      assert StepOf(s, s', t);
    } else if l.at.Scan? {
      assert s.list[l.i] in s.vnodes;
      var hit := s.vnodes[s.list[l.i]].ino == l.ino;
      var s' := Move(s, t, if hit then l.(at := ReadCount, v := s.list[l.i]) else l.(i := l.i + 1));
      assert if hit then Match(s, s', t) else Pass(s, s', t);
      assert StepOf(s, s', t);
    } else if l.at.ReadCount? {
      assert StepOf(s, Move(s, t, l.(at := CompareAndSwap, seen := s.vnodes[l.v].count)), t);
    } else if l.at.ReleaseForRetry? {
      assert StepOf(s, Move(s, t, l.(at := Yield)).(mutex := Open), t);
    } else if l.seen == 0 {
      assert StepOf(s, Move(s, t, l.(at := ReleaseForRetry)), t);
    } else if s.vnodes[l.v].count != l.seen {
      assert StepOf(s, Move(s, t, l.(seen := s.vnodes[l.v].count)), t);
    } else {
      var s' := Move(AddReference(s, t, l.v, k), t, l.(at := ReleaseAfterHit, token := k));
      assert SwapSucceeds(s, s', t, k);
      assert StepOf(s, s', t);
    }
  }

  lemma FoundProgress(s: State, t: Thread)
    requires Inv(s) && t in s.threads
    requires s.threads[t].at.ReleaseAfterHit? || s.threads[t].at.TestLoaded? || s.threads[t].at.Yield?
    ensures CanStep(s, t)
  {
    hide Inv, PhaseOf;
    var l := s.threads[t];
    LocalOf(s, t);
    if l.at.Yield? {
      assert StepOf(s, Move(s, t, l.(at := WantList)), t);
    } else if l.at.ReleaseAfterHit? {
      assert StepOf(s, Move(s, t, l.(at := TestLoaded)).(mutex := Open), t);
    } else if s.vnodes[l.v].state.Loading? {
      assert StepOf(s, Move(s, t, l.(at := Asleep)), t);
    } else if l.locked {
      assert StepOf(s, Move(s, t, l.(at := WantVnode)), t);
    } else {
      assert StepOf(s, Record(Move(s, t, l.(at := Idle)), Returned, l.v, t), t);
    }
  }

  /** A thread that is creating a vnode is never blocked. */
  lemma CreateProgress(s: State, t: Thread)
    requires Inv(s) && t in s.threads
    requires s.threads[t].at.Insert? || s.threads[t].at.LockNew? || s.threads[t].at.ReleaseAfterInsert?
      || s.threads[t].at.BeginRead?
      || s.threads[t].at.EndRead? || s.threads[t].at.SetLoaded? || s.threads[t].at.Broadcast?
           || s.threads[t].at.FinishNew?
    ensures CanStep(s, t)
  {
    hide Inv, PhaseOf, CanStep;
    var at := s.threads[t].at;
    if at.Insert? || at.LockNew? || at.ReleaseAfterInsert? || at.BeginRead? {
      InsertProgress(s, t);
    } else {
      ReadProgress(s, t);
    }
  }

  lemma InsertProgress(s: State, t: Thread)
    requires Inv(s) && t in s.threads
    requires s.threads[t].at.Insert? || s.threads[t].at.LockNew? || s.threads[t].at.ReleaseAfterInsert?
      || s.threads[t].at.BeginRead?
    ensures CanStep(s, t)
  {
    hide Inv, PhaseOf;
    var l := s.threads[t];
    LocalOf(s, t);
    match l.at {
      case Insert => assert StepOf(s, Record(Move(s.(list := s.list + [l.v]), t, l.(at := LockNew)), Inserted, l.v, t),
                                   t);
      case LockNew => assert StepOf(s, Move(SetLock(s, l.v, ByReference(l.token)), t, l.(at := ReleaseAfterInsert)), t);
      case ReleaseAfterInsert => assert StepOf(s, Move(s, t, l.(at := BeginRead)).(mutex := Open), t);
      case BeginRead => assert StepOf(s, Record(Move(s, t, l.(at := EndRead)), ReadBegun, l.v, t), t);
    }
  }

  lemma ReadProgress(s: State, t: Thread)
    requires Inv(s) && t in s.threads
    requires s.threads[t].at.EndRead? || s.threads[t].at.SetLoaded? || s.threads[t].at.Broadcast?
      || s.threads[t].at.FinishNew?
    ensures CanStep(s, t)
  {
    hide Inv, PhaseOf;
    var l := s.threads[t];
    LocalOf(s, t);
    match l.at {
      case EndRead => assert StepOf(s, Record(Move(s, t, l.(at := SetLoaded)), ReadEnded, l.v, t), t);
      case SetLoaded =>
        var s1 := s.(vnodes := s.vnodes[l.v := s.vnodes[l.v].(state := Loaded)]);
        assert StepOf(s, Record(Move(s1, t, l.(at := Broadcast)), BecameLoaded, l.v, t), t);
      case Broadcast => assert StepOf(s, Move(s.(threads := WakeAll(s.threads, l.v)), t, l.(at := FinishNew)), t);
      case FinishNew =>
        var s1 := if l.locked then s else SetLock(s, l.v, Nobody);
        assert StepOf(s, Record(Move(s1, t, l.(at := Idle)), Returned, l.v, t), t);
    }
  }

  /** A thread that is destroying a vnode waits for nothing but the list mutex. */
  lemma PutProgress(s: State, t: Thread)
    requires Inv(s) && t in s.threads
    requires s.threads[t].at.Decrement? || s.threads[t].at.LockDead? || s.threads[t].at.BeginDelete?
      || s.threads[t].at.EndDelete?
      || s.threads[t].at.UnlockDead? || s.threads[t].at.Remove? || s.threads[t].at.ReleaseAfterRemoval?
           || s.threads[t].at.Free?
    ensures CanStep(s, t)
  {
    hide Inv, PhaseOf;
    var l := s.threads[t];
    LocalOf(s, t);
    match l.at {
      case Decrement =>
        var s1 := DropReference(s, l.v, l.token);
        if s.vnodes[l.v].count == 1 {
          assert StepOf(s, Record(Move(s1, t, l.(at := LockDead)), CountReachedZero, l.v, t), t);
        } else {
          assert StepOf(s, Move(s1, t, l.(at := Idle)), t);
        }
      case LockDead => assert StepOf(s, Move(SetLock(s, l.v, ByDestroyer(t)), t, l.(at := BeginDelete)), t);
      case BeginDelete => assert StepOf(s, Record(Move(s, t, l.(at := EndDelete)), DeleteBegun, l.v, t), t);
      case EndDelete => assert StepOf(s, Record(Move(s, t, l.(at := UnlockDead)), DeleteEnded, l.v, t), t);
      case UnlockDead => assert StepOf(s, Move(SetLock(s, l.v, Nobody), t, l.(at := WantListForRemoval)), t);
      case Remove =>
        assert StepOf(s,
                      Record(Move(s.(list := Without(s.list, l.v)), t, l.(at := ReleaseAfterRemoval)), Removed, l.v, t),
                      t);
      case ReleaseAfterRemoval => assert StepOf(s, Move(s, t, l.(at := Free)).(mutex := Open), t);
      case Free => assert StepOf(s, Move(s.(vnodes := s.vnodes - {l.v}), t, l.(at := Idle)), t);
    }
  }

  /** `t` waits for `u`: for the list mutex, or to be woken by the thread that loads its vnode. */
  ghost predicate WaitsFor(s: State, t: Thread, u: Thread)
    requires t in s.threads
  {
    var l := s.threads[t];
    || ((l.at.WantList? || l.at.WantListForRemoval?) && s.mutex == HeldBy(u))
    || (l.at.Asleep? && u in s.threads && s.threads[u].v == l.v
         && (s.threads[u].at.Broadcast? || BeforeLoaded(RoleOf(s.threads[u].at).duty)))
  }

  /** `t` can go on, or waits for a thread that can, or waits for a mutex that a client has taken. */
  ghost predicate NotStuck(s: State, t: Thread)
    requires t in s.threads
  {
    || CanStep(s, t)
    || (exists u :: WaitsFor(s, t, u) && CanStep(s, u))
    || (s.threads[t].at.WantVnode? && s.threads[t].v in s.vnodes && s.vnodes[s.threads[t].v].lock.ByReference?)
  }

  lemma ListHolderProgress(s: State, u: Thread)
    requires Inv(s) && u in s.threads && RoleOf(s.threads[u].at).list
    ensures CanStep(s, u)
  {
    hide Inv, CanStep;
    match s.threads[u].at {
      case Scan => SearchProgress(s, u);
      case ReadCount => SearchProgress(s, u);
      case CompareAndSwap => SearchProgress(s, u);
      case ReleaseForRetry => SearchProgress(s, u);
      case ReleaseAfterHit => FoundProgress(s, u);
      case Insert => CreateProgress(s, u);
      case LockNew => CreateProgress(s, u);
      case ReleaseAfterInsert => CreateProgress(s, u);
      case Remove => PutProgress(s, u);
      case ReleaseAfterRemoval => PutProgress(s, u);
    }
  }

  lemma ListWaiterNotStuck(s: State, t: Thread)
    requires Inv(s) && t in s.threads && (s.threads[t].at.WantList? || s.threads[t].at.WantListForRemoval?)
    ensures NotStuck(s, t)
  {
    hide Inv, PhaseOf;
    var l := s.threads[t];
    LocalOf(s, t);
    RestOf(s);
    if s.mutex == Open {
      if l.at.WantList? {
        assert StepOf(s, Move(s, t, l.(at := Scan, i := 0)).(mutex := HeldBy(t)), t);
      } else {
        assert StepOf(s, Move(s, t, l.(at := Remove)).(mutex := HeldBy(t)), t);
      }
    } else {
      ListHolderProgress(s, s.mutex.thread);
      assert WaitsFor(s, t, s.mutex.thread);
    }
  }

  lemma SleeperNotStuck(s: State, t: Thread)
    requires Inv(s) && WakeOk(s) && t in s.threads && s.threads[t].at.Asleep?
    ensures NotStuck(s, t)
  {
    hide Inv, PhaseOf, CanStep;
    var l := s.threads[t];
    LocalOf(s, t);
    HeldIsAlive(s, l.token);
    PhaseIn(s, l.v);
    var u := PhaseOf(s.log, s.vnodes[l.v].ino).who;
    CreateProgress(s, u);
    assert WaitsFor(s, t, u);
  }

  lemma VnodeWaiterNotStuck(s: State, t: Thread)
    requires Inv(s) && t in s.threads && s.threads[t].at.WantVnode?
    ensures NotStuck(s, t)
  {
    hide Inv, PhaseOf;
    var l := s.threads[t];
    LocalOf(s, t);
    LocksOf(s);
    HeldIsAlive(s, l.token);
    var h := s.vnodes[l.v].lock;
    assert LockOk(l.v, h, s.refs, s.threads);
    if h == Nobody {
      assert StepOf(s, Record(Move(SetLock(s, l.v, ByReference(l.token)), t, l.(at := Idle)), Returned, l.v, t), t);
    } else if h.ByDestroyer? {
      InCharge(s, h.thread);
    }
  }

  lemma BusyNotStuck(s: State, t: Thread)
    requires Inv(s) && WakeOk(s) && t in s.threads && !s.threads[t].at.Idle?
    ensures NotStuck(s, t)
  {
    hide Inv, WakeOk, CanStep;
    var at := s.threads[t].at;
    if at.WantList? || at.WantListForRemoval? {
      ListWaiterNotStuck(s, t);
    } else if at.Asleep? {
      SleeperNotStuck(s, t);
    } else if at.WantVnode? {
      VnodeWaiterNotStuck(s, t);
    } else if RoleOf(at).list {
      ListHolderProgress(s, t);
    } else if at.Yield? || at.TestLoaded? {
      FoundProgress(s, t);
    } else if at.BeginRead? || at.EndRead? || at.SetLoaded? || at.Broadcast? || at.FinishNew? {
      CreateProgress(s, t);
    } else {
      PutProgress(s, t);
    }
  }

  /** Main result: no interleaving loses a wake-up or deadlocks inside the cache. */
  lemma NoRunGetsStuck(run: seq<State>)
    ensures IsRun(run) ==>
      forall n, t :: 0 <= n < |run| && t in run[n].threads && !run[n].threads[t].at.Idle? ==> NotStuck(run[n], t)
  {
    hide Inv, IsRun, WakeOk, NotStuck;
    if IsRun(run) {
      forall n, t | 0 <= n < |run| && t in run[n].threads && !run[n].threads[t].at.Idle? ensures NotStuck(run[n], t) {
        RunHasInv(run, n);
        RunWakes(run, n);
        BusyNotStuck(run[n], t);
      }
    }
  }
}
