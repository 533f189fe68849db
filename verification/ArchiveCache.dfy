/**
 The archive cache of the git cloner (tools-service/src/service/git_cloner.cpp)
 as a step system: any number of threads run `clone` and `sweepExpired` against
 one cache, one disk, one lock per URL, one cache lock and one clock.

 A step of a thread is one effect on the shared state; other threads may run
 between any two steps.  What git and zip write, whether they succeed and how
 the clock moves is chosen by the step.
 */
module ArchiveCache {
  import opened Wrappers

  type Url = string
  type Tid = nat

  /** What a path holds: its size and the write that produced it. */
  datatype File = File(size: nat, version: nat)

  /** `<workdir>/<hash>.zip` and `<workdir>/<hash>.src`. */
  datatype Path = Zip(hash: nat) | Src(hash: nat)

  datatype Entry = Entry(path: Path, lastUsed: int)

  /** An archive handed to a caller, with the stamp its entry got at that moment. */
  datatype Grant = Grant(url: Url, stamp: int, file: File)

  /** `urls` are the URLs in use; `hash` stands for the file-name hash. */
  datatype Config = Config(urls: set<Url>, hash: Url -> nat, maxBytes: nat, ttl: int)

  /** Where a `clone` call is; the name says what the thread does next. */
  datatype Phase =
    | Wait                    // take the URL lock
    | Fast                    // take the cache lock for the fast path
    | Probe                   // look the key up
    | Decide(now: int)        // entry found and clock read: fresh or stale?
    | DropStale(stale: Path)  // entry erased: remove its archive
    | LeaveMiss               // give the cache lock back
    | CleanSrc                // remove leftovers
    | CleanZip
    | Git                     // git clone runs
    | GitFailed               // remove the partial clone, fail
    | Pack                    // zip runs
    | PackFailedSrc           // remove clone and archive, fail
    | PackFailedZip
    | DropSrc                 // packed: remove the clone
    | Measure                 // check the size
    | TooBig                  // remove the archive, fail
    | Publish                 // take the cache lock to publish
    | Stamp                   // read the clock
    | Store(now: int)         // write the entry
    | LeaveHit(grant: Grant)  // give the cache lock back
    | Return(granted: Option<Grant>)

  datatype Pc =
    | Idle
    | Lookup(url: Url)
    | Call(url: Url, mutex: nat, at: Phase)
    | SweepWait
    | SweepStart
    | SweepScan(now: int, todo: set<Url>)
    | SweepErase(now: int, todo: set<Url>, url: Url)

  datatype State = State(
    now: int,
    cache: map<Url, Entry>,
    disk: map<Path, File>,
    mutexes: map<Url, nat>,     // url_mutexes_
    owner: map<nat, Tid>,       // URL locks that are held
    cacheOwner: Option<Tid>,    // cache_mutex_
    pcs: map<Tid, Pc>,
    writes: nat,                // version of the next write
    granted: set<Grant>)        // history: every archive handed out

  /** What the outside world does in a step. */
  datatype Choice =
    | Go
    | Touch(size: nat)   // git or zip writes its output
    | Vanish             // git or zip removes its output
    | Finish(ok: bool)   // git or zip ends
    | Visit(url: Url)    // the sweep's next key

  datatype Step =
    | Tick(seconds: nat)
    | StartClone(caller: Tid, url: Url)
    | StartSweep(caller: Tid)
    | Advance(thread: Tid, choice: Choice)

  /** The one change a thread's step makes to the shared state. */
  datatype Effect =
    | Nothing
    | AddMutex(url: Url)
    | LockUrl(mutex: nat)
    | UnlockUrl(mutex: nat)
    | LockCache
    | UnlockCache
    | Delete(path: Path)
    | Output(path: Path, size: nat)
    | Erase(url: Url)
    | SetEntry(grant: Grant, path: Path)

  datatype Action = Action(effect: Effect, next: Pc)

  // ---------------------------------------------------------------- steps

  function PcOf(s: State, t: Tid): Pc {
    if t in s.pcs then s.pcs[t] else Idle
  }

  function ZipOf(c: Config, u: Url): Path { Zip(c.hash(u)) }

  function SrcOf(c: Config, u: Url): Path { Src(c.hash(u)) }

  function FileAt(s: State, p: Path): File {
    if p in s.disk then s.disk[p] else File(0, 0)
  }

  predicate Expired(c: Config, e: Entry, now: int) {
    now - e.lastUsed >= c.ttl
  }

  /** urlMutex: the lock of a URL is made on first use and kept. */
  function MutexOf(s: State, u: Url): nat {
    if u in s.mutexes then s.mutexes[u] else |s.mutexes|
  }

  /** What `clone` does next for URL u. */
  function CallAction(c: Config, s: State, u: Url, m: nat, at: Phase, ch: Choice): Option<Action> {
    match at
    case Wait => Some(Action(LockUrl(m), Call(u, m, Fast)))
    case Fast => Some(Action(LockCache, Call(u, m, Probe)))
    case Probe => Some(Action(Nothing, Call(u, m, if u in s.cache then Decide(s.now) else LeaveMiss)))
    case Decide(now) =>
      if u !in s.cache then None
      else if !Expired(c, s.cache[u], now) then SetAction(s, u, m, s.cache[u].path, now)
      else Some(Action(Erase(u), Call(u, m, DropStale(s.cache[u].path))))
    case DropStale(p) => Some(Action(Delete(p), Call(u, m, LeaveMiss)))
    case LeaveMiss => Some(Action(UnlockCache, Call(u, m, CleanSrc)))
    case CleanSrc => Some(Action(Delete(SrcOf(c, u)), Call(u, m, CleanZip)))
    case CleanZip => Some(Action(Delete(ZipOf(c, u)), Call(u, m, Git)))
    case Git => ToolAction(u, m, SrcOf(c, u), Git, Pack, GitFailed, ch)
    case GitFailed => Some(Action(Delete(SrcOf(c, u)), Call(u, m, Return(None))))
    case Pack => ToolAction(u, m, ZipOf(c, u), Pack, DropSrc, PackFailedSrc, ch)
    case PackFailedSrc => Some(Action(Delete(SrcOf(c, u)), Call(u, m, PackFailedZip)))
    case PackFailedZip => Some(Action(Delete(ZipOf(c, u)), Call(u, m, Return(None))))
    case DropSrc => Some(Action(Delete(SrcOf(c, u)), Call(u, m, Measure)))
    case Measure =>
      var size := FileAt(s, ZipOf(c, u)).size;
      Some(Action(Nothing, Call(u, m, if size == 0 || size > c.maxBytes then TooBig else Publish)))
    case TooBig => Some(Action(Delete(ZipOf(c, u)), Call(u, m, Return(None))))
    case Publish => Some(Action(LockCache, Call(u, m, Stamp)))
    case Stamp => Some(Action(Nothing, Call(u, m, Store(s.now))))
    case Store(now) => SetAction(s, u, m, ZipOf(c, u), now)
    case LeaveHit(g) => Some(Action(UnlockCache, Call(u, m, Return(Some(g)))))
    case Return(_) => Some(Action(UnlockUrl(m), Idle))
  }

  /** The entry of u gets stamp `now` and its archive is handed out. */
  function SetAction(s: State, u: Url, m: nat, p: Path, now: int): Option<Action> {
    var g := Grant(u, now, FileAt(s, p));
    Some(Action(SetEntry(g, p), Call(u, m, LeaveHit(g))))
  }

  /** git and zip write, rewrite or remove their output as they like until they end. */
  function ToolAction(u: Url, m: nat, out: Path, at: Phase, good: Phase, bad: Phase, ch: Choice): Option<Action> {
    match ch
    case Touch(size) => Some(Action(Output(out, size), Call(u, m, at)))
    case Vanish => Some(Action(Delete(out), Call(u, m, at)))
    case Finish(ok) => Some(Action(Nothing, Call(u, m, if ok then good else bad)))
    case _ => None
  }

  function ActionOf(c: Config, s: State, pc: Pc, ch: Choice): Option<Action> {
    match pc
    case Idle => None
    case Lookup(u) => Some(Action(AddMutex(u), Call(u, MutexOf(s, u), Wait)))
    case Call(u, m, at) => CallAction(c, s, u, m, at, ch)
    case SweepWait => Some(Action(LockCache, SweepStart))
    case SweepStart => Some(Action(Nothing, SweepScan(s.now, s.cache.Keys)))
    case SweepScan(now, todo) =>
      if todo == {} then Some(Action(UnlockCache, Idle))
      else if !ch.Visit? || ch.url !in todo then None
      else if ch.url in s.cache && Expired(c, s.cache[ch.url], now) then
        Some(Action(Delete(s.cache[ch.url].path), SweepErase(now, todo - {ch.url}, ch.url)))
      else Some(Action(Nothing, SweepScan(now, todo - {ch.url})))
    case SweepErase(now, todo, u) => Some(Action(Erase(u), SweepScan(now, todo)))
  }

  /** A thread waits for a lock that is held. */
  predicate Blocked(s: State, e: Effect) {
    (e.LockUrl? && e.mutex in s.owner) || (e.LockCache? && s.cacheOwner.Some?)
  }

  function CacheAfter(s: State, e: Effect): map<Url, Entry> {
    match e
    case Erase(u) => s.cache - {u}
    case SetEntry(g, p) => s.cache[g.url := Entry(p, g.stamp)]
    case _ => s.cache
  }

  function DiskAfter(s: State, e: Effect): map<Path, File> {
    match e
    case Delete(p) => s.disk - {p}
    case Output(p, size) => s.disk[p := File(size, s.writes)]
    case _ => s.disk
  }

  function OwnerAfter(s: State, t: Tid, e: Effect): map<nat, Tid> {
    match e
    case LockUrl(m) => s.owner[m := t]
    case UnlockUrl(m) => s.owner - {m}
    case _ => s.owner
  }

  /** Thread t performs a: one field of the shared state changes, and t moves on. */
  function Do(s: State, t: Tid, a: Action): State {
    var e := a.effect;
    State(
      s.now,
      CacheAfter(s, e),
      DiskAfter(s, e),
      if e.AddMutex? then s.mutexes[e.url := MutexOf(s, e.url)] else s.mutexes,
      OwnerAfter(s, t, e),
      if e.LockCache? then Some(t) else if e.UnlockCache? then None else s.cacheOwner,
      s.pcs[t := a.next],
      if e.Output? then s.writes + 1 else s.writes,
      if e.SetEntry? then s.granted + {e.grant} else s.granted)
  }

  function Later(s: State, seconds: nat): State {
    s.(now := s.now + seconds)
  }

  function Try(s: State, t: Tid, a: Option<Action>): Option<State> {
    if a.None? || Blocked(s, a.value.effect) then None else Some(Do(s, t, a.value))
  }

  /** The state after a step, or None when the step cannot be taken. */
  function Apply(c: Config, s: State, step: Step): Option<State> {
    match step
    case Tick(d) => Some(Later(s, d))
    case StartClone(t, u) =>
      if PcOf(s, t).Idle? && u in c.urls then Some(Do(s, t, Action(Nothing, Lookup(u)))) else None
    case StartSweep(t) =>
      if PcOf(s, t).Idle? then Some(Do(s, t, Action(Nothing, SweepWait))) else None
    case Advance(t, ch) => Try(s, t, ActionOf(c, s, PcOf(s, t), ch))
  }

  predicate Initial(s: State) {
    && s.cache == map[] && s.disk == map[] && s.mutexes == map[] && s.owner == map[]
    && s.cacheOwner == None && s.pcs == map[] && s.granted == {}
  }

  /** A run: each state is reached from the one before by an enabled step. */
  ghost predicate IsRun(c: Config, states: seq<State>, steps: seq<Step>) {
    && |states| == |steps| + 1
    && Initial(states[0])
    && forall i | 0 <= i < |steps| :: Apply(c, states[i], steps[i]) == Some(states[i + 1])
  }

  /** The assumption the file names rest on. */
  ghost predicate HashesDistinct(c: Config) {
    forall u, v | u in c.urls && v in c.urls && c.hash(u) == c.hash(v) :: u == v
  }

  // ---------------------------------------------------------------- invariant

  predicate HoldsCache(pc: Pc) {
    match pc
    case Call(_, _, at) =>
      at.Probe? || at.Decide? || at.DropStale? || at.LeaveMiss? || at.Stamp? || at.Store? || at.LeaveHit?
    case SweepStart => true
    case SweepScan(_, _) => true
    case SweepErase(_, _, _) => true
    case _ => false
  }

  predicate HoldsUrl(pc: Pc) {
    pc.Call? && !pc.at.Wait?
  }

  /** The call has found the key missing or stale and has not published yet. */
  predicate Rebuilding(at: Phase) {
    !(at.Wait? || at.Fast? || at.Probe? || at.Decide? || at.LeaveHit? || at.Return?)
  }

  predicate MayHaveZip(pc: Pc) {
    pc.Call? && (pc.at.DropStale? || pc.at.Pack? || pc.at.PackFailedSrc? || pc.at.PackFailedZip? || pc.at.DropSrc?
                 || pc.at.Measure? || pc.at.TooBig? || pc.at.Publish? || pc.at.Stamp? || pc.at.Store?)
  }

  predicate MayHaveSrc(pc: Pc) {
    pc.Call? && (pc.at.Git? || pc.at.GitFailed? || pc.at.Pack? || pc.at.PackFailedSrc? || pc.at.DropSrc?)
  }

  /** The program counter of the thread that holds the lock of u; Idle when no thread does. */
  function HolderPc(s: State, u: Url): Pc {
    if u in s.mutexes && s.mutexes[u] in s.owner then PcOf(s, s.owner[s.mutexes[u]]) else Idle
  }

  /** The archive of u is on disk, nonempty and within the limit. */
  predicate Archived(c: Config, s: State, u: Url) {
    ZipOf(c, u) in s.disk && 0 < s.disk[ZipOf(c, u)].size <= c.maxBytes
  }

  /** A sweep has removed the archive of u and is about to erase its entry. */
  predicate BeingSwept(s: State, u: Url) {
    && s.cacheOwner.Some?
    && PcOf(s, s.cacheOwner.value).SweepErase?
    && PcOf(s, s.cacheOwner.value).url == u
  }

  ghost predicate MutexesOk(s: State) {
    && (forall u | u in s.mutexes :: s.mutexes[u] < |s.mutexes|)
    && (forall m | m in s.owner :: m < |s.mutexes|)
    && (forall u, v | u in s.mutexes && v in s.mutexes && s.mutexes[u] == s.mutexes[v] :: u == v)
  }

  ghost predicate OwnersOk(s: State) {
    && (forall m | m in s.owner :: HoldsUrl(PcOf(s, s.owner[m])) && PcOf(s, s.owner[m]).mutex == m)
    && (s.cacheOwner.Some? ==> HoldsCache(PcOf(s, s.cacheOwner.value)))
  }

  ghost predicate CacheOk(c: Config, s: State) {
    forall u | u in s.cache ::
      && u in c.urls && s.cache[u].path == ZipOf(c, u) && s.cache[u].lastUsed <= s.now
      && (Archived(c, s, u) || BeingSwept(s, u))
  }

  ghost predicate DiskOk(c: Config, s: State) {
    && (forall p | p in s.disk :: exists u :: u in c.urls && p.hash == c.hash(u))
    && (forall u | u in c.urls && ZipOf(c, u) in s.disk && u !in s.cache :: MayHaveZip(HolderPc(s, u)))
    && (forall u | u in c.urls && SrcOf(c, u) in s.disk :: MayHaveSrc(HolderPc(s, u)))
  }

  /** The archive of a grant is untouched, or the grant has run out. */
  ghost predicate GrantOk(c: Config, s: State, g: Grant) {
    && g.url in c.urls
    && (s.now < g.stamp + c.ttl ==>
          && g.url in s.cache
          && g.stamp <= s.cache[g.url].lastUsed
          && ZipOf(c, g.url) in s.disk
          && s.disk[ZipOf(c, g.url)] == g.file)
  }

  ghost predicate GrantsOk(c: Config, s: State) {
    forall g | g in s.granted :: GrantOk(c, s, g)
  }

  ghost predicate PhaseOk(c: Config, s: State, u: Url, at: Phase) {
    && (Rebuilding(at) ==> u !in s.cache)
    && ClockOk(c, s, u, at)
    && ArchiveOk(c, s, u, at)
    && (at.LeaveHit? ==> at.grant in s.granted && at.grant.url == u)
    && (at.Return? && at.granted.Some? ==> at.granted.value in s.granted && at.granted.value.url == u)
  }

  ghost predicate ClockOk(c: Config, s: State, u: Url, at: Phase) {
    && (at.Decide? ==> at.now <= s.now && u in s.cache && s.cache[u].lastUsed <= at.now)
    && (at.Store? ==> at.now <= s.now)
  }

  ghost predicate ArchiveOk(c: Config, s: State, u: Url, at: Phase) {
    && (at.DropStale? ==> at.stale == ZipOf(c, u))
    && (at.Publish? || at.Stamp? || at.Store? ==> Archived(c, s, u))
  }

  ghost predicate SweepOk(c: Config, s: State, pc: Pc) {
    && (pc.SweepScan? || pc.SweepErase? ==>
          && pc.now <= s.now
          && forall u | u in s.cache && u !in pc.todo && !(pc.SweepErase? && pc.url == u) ::
               !Expired(c, s.cache[u], pc.now))
    && (pc.SweepErase? ==>
          pc.url in s.cache && Expired(c, s.cache[pc.url], pc.now) && ZipOf(c, pc.url) !in s.disk)
  }

  ghost predicate LocksOk(c: Config, s: State, t: Tid, pc: Pc) {
    && (HoldsCache(pc) ==> s.cacheOwner == Some(t))
    && (HoldsUrl(pc) ==> pc.mutex in s.owner && s.owner[pc.mutex] == t)
    && (pc.Lookup? || pc.Call? ==> pc.url in c.urls)
    && (pc.Call? ==> pc.url in s.mutexes && s.mutexes[pc.url] == pc.mutex)
  }

  ghost predicate ThreadOk(c: Config, s: State, t: Tid) {
    && LocksOk(c, s, t, PcOf(s, t))
    && (PcOf(s, t).Call? ==> PhaseOk(c, s, PcOf(s, t).url, PcOf(s, t).at))
    && SweepOk(c, s, PcOf(s, t))
  }

  ghost predicate ThreadsOk(c: Config, s: State) {
    forall t: Tid :: ThreadOk(c, s, t)
  }

  ghost predicate Inv(c: Config, s: State) {
    && MutexesOk(s) && OwnersOk(s) && CacheOk(c, s) && DiskOk(c, s) && GrantsOk(c, s) && ThreadsOk(c, s)
  }

  // ---------------------------------------------------------------- every step keeps it

  /** How an action from pc uses the cache lock. */
  ghost predicate CacheLockFit(pc: Pc, a: Action) {
    var e := a.effect;
    && (e.LockCache? ==> !HoldsCache(pc) && HoldsCache(a.next))
    && (e.UnlockCache? ==> HoldsCache(pc) && !HoldsCache(a.next))
    && (!e.LockCache? && !e.UnlockCache? ==> HoldsCache(pc) == HoldsCache(a.next))
    && (e.Erase? || e.SetEntry? ==> HoldsCache(pc))
  }

  /** How an action from pc uses the URL locks. */
  ghost predicate UrlLockFit(s: State, pc: Pc, a: Action) {
    var e := a.effect;
    && (e.LockUrl? ==> HoldsUrl(a.next) && pc.Call? && pc.mutex == e.mutex)
    && (e.UnlockUrl? ==> HoldsUrl(pc) && !HoldsUrl(a.next) && e.mutex == pc.mutex)
    && (!e.LockUrl? && !e.UnlockUrl? ==> HoldsUrl(pc) == HoldsUrl(a.next))
    && (e.AddMutex? ==> pc.Lookup? && e.url == pc.url)
    && (a.next.Lookup? ==> pc.Idle?)
    && (a.next.Call? ==>
          || (pc.Call? && pc.url == a.next.url && pc.mutex == a.next.mutex)
          || (pc.Lookup? && e == AddMutex(pc.url) && a.next == Call(pc.url, MutexOf(s, pc.url), Wait)))
  }

  /** What an action from pc may do to cache and disk. */
  ghost predicate DataFit(c: Config, s: State, pc: Pc, a: Action) {
    var e := a.effect;
    && (e.Delete? || e.Output? ==>
          || (pc.Call? && Rebuilding(pc.at) && (e.path == ZipOf(c, pc.url) || e.path == SrcOf(c, pc.url)))
          || (e.Delete? && pc.SweepScan? && a.next.SweepErase? && a.next.url in s.cache
              && e.path == s.cache[a.next.url].path && Expired(c, s.cache[a.next.url], s.now)))
    && (e.Output? && e.path == ZipOf(c, pc.url) ==> MayHaveZip(a.next))
    && (e.Output? && e.path == SrcOf(c, pc.url) ==> MayHaveSrc(a.next))
    && (e.Erase? ==>
          && e.url in s.cache && Expired(c, s.cache[e.url], s.now)
          && ((pc.Call? && e.url == pc.url && MayHaveZip(a.next)) || (pc.SweepErase? && e.url == pc.url)))
    && (pc.SweepErase? ==> e == Erase(pc.url))
    && (e.SetEntry? ==>
          && pc.Call? && HoldsUrl(pc) && e.grant.url == pc.url && e.path == ZipOf(c, pc.url)
          && e.grant.stamp <= s.now
          && (pc.url in s.cache ==> s.cache[pc.url].lastUsed <= e.grant.stamp)
          && Archived(c, s, pc.url) && e.grant.file == s.disk[e.path])
    && (MayHaveZip(pc) ==> MayHaveZip(a.next) || e == Delete(ZipOf(c, pc.url)) || e.SetEntry?)
    && (MayHaveSrc(pc) ==> MayHaveSrc(a.next) || e == Delete(SrcOf(c, pc.url)))
  }

  /** What an action establishes for the phase it leads to. */
  ghost predicate NextCallFit(c: Config, s: State, a: Action) {
    a.next.Call? ==>
      var u, at, e := a.next.url, a.next.at, a.effect;
      && (Rebuilding(at) ==> !e.SetEntry? && (u !in s.cache || e == Erase(u)))
      && (at.LeaveHit? ==> e.SetEntry? && e.grant == at.grant && at.grant.url == u)
      && (at.Return? && at.granted.Some? ==> at.granted.value in s.granted && at.granted.value.url == u)
  }

  ghost predicate NextDataFit(c: Config, s: State, a: Action) {
    a.next.Call? ==>
      var u, at, e := a.next.url, a.next.at, a.effect;
      && ClockOk(c, s, u, at)
      && ArchiveOk(c, s, u, at)
      && (at.Decide? || at.Publish? || at.Stamp? || at.Store? ==> e.Nothing? || e.LockCache?)
  }

  ghost predicate NextSweepFit(c: Config, s: State, a: Action) {
    var pc := a.next;
    && (pc.SweepScan? || pc.SweepErase? ==>
          && pc.now <= s.now && !a.effect.SetEntry?
          && forall u | u in s.cache && u !in pc.todo && !(pc.SweepErase? && pc.url == u) && a.effect != Erase(u) ::
               !Expired(c, s.cache[u], pc.now))
    && (pc.SweepErase? ==>
          && pc.url in s.cache && Expired(c, s.cache[pc.url], pc.now)
          && a.effect == Delete(ZipOf(c, pc.url)))
  }

  lemma ActionCacheLock(c: Config, s: State, pc: Pc, ch: Choice, a: Action)
    requires ActionOf(c, s, pc, ch) == Some(a)
    ensures CacheLockFit(pc, a)
  {}

  lemma ActionUrlLock(c: Config, s: State, pc: Pc, ch: Choice, a: Action)
    requires ActionOf(c, s, pc, ch) == Some(a)
    ensures UrlLockFit(s, pc, a)
  {}

  lemma ActionData(c: Config, s: State, t: Tid, ch: Choice, a: Action)
    requires ActionOf(c, s, PcOf(s, t), ch) == Some(a) && ThreadOk(c, s, t) && CacheOk(c, s)
    ensures DataFit(c, s, PcOf(s, t), a)
  {
    var pc := PcOf(s, t);
    if pc.Call? && pc.at.Decide? && a.effect.SetEntry? {
      assert !BeingSwept(s, pc.url);
    }
  }

  lemma ActionNextCall(c: Config, s: State, pc: Pc, ch: Choice, a: Action)
    requires ActionOf(c, s, pc, ch) == Some(a) && (pc.Call? ==> PhaseOk(c, s, pc.url, pc.at))
    ensures NextCallFit(c, s, a)
  {}

  lemma ActionNextClock(c: Config, s: State, pc: Pc, ch: Choice, a: Action)
    requires ActionOf(c, s, pc, ch) == Some(a) && a.next.Call?
    requires pc.Call? && pc.url in s.cache ==> s.cache[pc.url].lastUsed <= s.now
    ensures ClockOk(c, s, a.next.url, a.next.at)
  {}

  lemma ActionNextArchive(c: Config, s: State, pc: Pc, ch: Choice, a: Action)
    requires ActionOf(c, s, pc, ch) == Some(a) && a.next.Call? && (pc.Call? ==> ArchiveOk(c, s, pc.url, pc.at))
    requires pc.Call? && pc.url in s.cache ==> s.cache[pc.url].path == ZipOf(c, pc.url)
    ensures ArchiveOk(c, s, a.next.url, a.next.at)
    ensures var at := a.next.at;
      at.Decide? || at.Publish? || at.Stamp? || at.Store? ==> a.effect.Nothing? || a.effect.LockCache?
  {}

  lemma ActionNextSweep(c: Config, s: State, t: Tid, ch: Choice, a: Action)
    requires ActionOf(c, s, PcOf(s, t), ch) == Some(a) && ThreadOk(c, s, t) && CacheOk(c, s)
    ensures NextSweepFit(c, s, a)
  {}

  lemma KeepsMutexes(c: Config, s: State, t: Tid, a: Action)
    requires MutexesOk(s) && LocksOk(c, s, t, PcOf(s, t)) && UrlLockFit(s, PcOf(s, t), a)
    ensures MutexesOk(Do(s, t, a))
  {}

  lemma KeepsOwners(c: Config, s: State, t: Tid, a: Action)
    requires OwnersOk(s) && LocksOk(c, s, t, PcOf(s, t)) && !Blocked(s, a.effect)
    requires CacheLockFit(PcOf(s, t), a) && UrlLockFit(s, PcOf(s, t), a)
    ensures OwnersOk(Do(s, t, a))
  {
    var s' := Do(s, t, a);
    forall m | m in s'.owner ensures HoldsUrl(PcOf(s', s'.owner[m])) && PcOf(s', s'.owner[m]).mutex == m {}
  }

  lemma KeepsCache(c: Config, s: State, t: Tid, a: Action)
    requires CacheOk(c, s) && OwnersOk(s) && HashesDistinct(c) && ThreadOk(c, s, t)
    requires CacheLockFit(PcOf(s, t), a) && DataFit(c, s, PcOf(s, t), a) && !Blocked(s, a.effect)
    ensures CacheOk(c, Do(s, t, a))
  {
    var s' := Do(s, t, a);
    forall u | u in s'.cache
      ensures u in c.urls && s'.cache[u].path == ZipOf(c, u) && s'.cache[u].lastUsed <= s'.now
      ensures Archived(c, s', u) || BeingSwept(s', u)
    {
      KeepsEntry(c, s, t, a, u);
    }
  }

  lemma KeepsEntry(c: Config, s: State, t: Tid, a: Action, u: Url)
    requires CacheOk(c, s) && OwnersOk(s) && HashesDistinct(c) && ThreadOk(c, s, t) && u in Do(s, t, a).cache
    requires CacheLockFit(PcOf(s, t), a) && DataFit(c, s, PcOf(s, t), a) && !Blocked(s, a.effect)
    ensures var s' := Do(s, t, a);
      && u in c.urls && s'.cache[u].path == ZipOf(c, u) && s'.cache[u].lastUsed <= s'.now
      && (Archived(c, s', u) || BeingSwept(s', u))
  {}

  /** The holder of u's lock after a step of t: unchanged, or t itself moved. */
  lemma HolderAfter(c: Config, s: State, t: Tid, a: Action, u: Url)
    requires MutexesOk(s) && OwnersOk(s) && LocksOk(c, s, t, PcOf(s, t))
    requires UrlLockFit(s, PcOf(s, t), a) && !Blocked(s, a.effect)
    ensures
      || HolderPc(Do(s, t, a), u) == HolderPc(s, u)
      || (HolderPc(s, u) == Idle && a.effect.LockUrl?)
      || (HolderPc(s, u) == PcOf(s, t) && PcOf(s, t).Call? && PcOf(s, t).url == u
          && (HolderPc(Do(s, t, a), u) == a.next || a.effect.UnlockUrl?))
    ensures HoldsUrl(PcOf(s, t)) && PcOf(s, t).url == u && !a.effect.UnlockUrl? ==> HolderPc(Do(s, t, a), u) == a.next
  {}

  lemma KeepsDisk(c: Config, s: State, t: Tid, a: Action)
    requires MutexesOk(s) && OwnersOk(s) && DiskOk(c, s) && CacheOk(c, s) && HashesDistinct(c) && ThreadOk(c, s, t)
    requires UrlLockFit(s, PcOf(s, t), a) && DataFit(c, s, PcOf(s, t), a) && !Blocked(s, a.effect)
    ensures DiskOk(c, Do(s, t, a))
  {
    var s' := Do(s, t, a);
    forall u | u in c.urls && ZipOf(c, u) in s'.disk && u !in s'.cache ensures MayHaveZip(HolderPc(s', u)) {
      KeepsZip(c, s, t, a, u);
    }
    forall u | u in c.urls && SrcOf(c, u) in s'.disk ensures MayHaveSrc(HolderPc(s', u)) {
      KeepsSrc(c, s, t, a, u);
    }
  }

  lemma KeepsZip(c: Config, s: State, t: Tid, a: Action, u: Url)
    requires MutexesOk(s) && OwnersOk(s) && CacheOk(c, s) && HashesDistinct(c) && ThreadOk(c, s, t)
    requires UrlLockFit(s, PcOf(s, t), a) && DataFit(c, s, PcOf(s, t), a) && !Blocked(s, a.effect)
    requires u in c.urls && (ZipOf(c, u) in s.disk && u !in s.cache ==> MayHaveZip(HolderPc(s, u)))
    requires ZipOf(c, u) in Do(s, t, a).disk && u !in Do(s, t, a).cache
    ensures MayHaveZip(HolderPc(Do(s, t, a), u))
  {
    HolderAfter(c, s, t, a, u);
  }

  lemma KeepsSrc(c: Config, s: State, t: Tid, a: Action, u: Url)
    requires MutexesOk(s) && OwnersOk(s) && CacheOk(c, s) && HashesDistinct(c) && ThreadOk(c, s, t)
    requires UrlLockFit(s, PcOf(s, t), a) && DataFit(c, s, PcOf(s, t), a) && !Blocked(s, a.effect)
    requires u in c.urls && (SrcOf(c, u) in s.disk ==> MayHaveSrc(HolderPc(s, u)))
    requires SrcOf(c, u) in Do(s, t, a).disk
    ensures MayHaveSrc(HolderPc(Do(s, t, a), u))
  {
    HolderAfter(c, s, t, a, u);
  }

  lemma KeepsGrants(c: Config, s: State, t: Tid, a: Action)
    requires GrantsOk(c, s) && CacheOk(c, s) && HashesDistinct(c) && ThreadOk(c, s, t)
    requires DataFit(c, s, PcOf(s, t), a)
    ensures GrantsOk(c, Do(s, t, a))
  {
    var s' := Do(s, t, a);
    forall g | g in s'.granted ensures GrantOk(c, s', g) {}
  }

  lemma KeepsOwnLocks(c: Config, s: State, t: Tid, a: Action)
    requires LocksOk(c, s, t, PcOf(s, t)) && (a.next.Lookup? ==> a.next.url in c.urls)
    requires CacheLockFit(PcOf(s, t), a) && UrlLockFit(s, PcOf(s, t), a)
    ensures LocksOk(c, Do(s, t, a), t, a.next)
  {}

  lemma KeepsOwnPhase(c: Config, s: State, t: Tid, a: Action)
    requires NextCallFit(c, s, a) && NextDataFit(c, s, a) && a.next.Call?
    ensures PhaseOk(c, Do(s, t, a), a.next.url, a.next.at)
  {}

  lemma KeepsOwnSweep(c: Config, s: State, t: Tid, a: Action)
    requires NextSweepFit(c, s, a)
    ensures SweepOk(c, Do(s, t, a), a.next)
  {}

  /** What t does leaves every other thread's knowledge true. */
  lemma KeepsOtherLocks(c: Config, s: State, t: Tid, a: Action, x: Tid)
    requires x != t && !Blocked(s, a.effect) && LocksOk(c, s, t, PcOf(s, t)) && LocksOk(c, s, x, PcOf(s, x))
    requires CacheLockFit(PcOf(s, t), a) && UrlLockFit(s, PcOf(s, t), a)
    ensures LocksOk(c, Do(s, t, a), x, PcOf(s, x))
  {}

  lemma KeepsOtherPhase(c: Config, s: State, t: Tid, a: Action, x: Tid)
    requires x != t && CacheOk(c, s) && HashesDistinct(c) && ThreadOk(c, s, t) && ThreadOk(c, s, x)
    requires CacheLockFit(PcOf(s, t), a) && DataFit(c, s, PcOf(s, t), a) && PcOf(s, x).Call?
    ensures PhaseOk(c, Do(s, t, a), PcOf(s, x).url, PcOf(s, x).at)
  {}

  lemma KeepsOtherSweep(c: Config, s: State, t: Tid, a: Action, x: Tid)
    requires x != t && CacheOk(c, s) && HashesDistinct(c) && ThreadOk(c, s, t) && ThreadOk(c, s, x)
    requires CacheLockFit(PcOf(s, t), a) && DataFit(c, s, PcOf(s, t), a)
    ensures SweepOk(c, Do(s, t, a), PcOf(s, x))
  {}

  lemma KeepsThreads(c: Config, s: State, t: Tid, a: Action)
    requires MutexesOk(s) && CacheOk(c, s) && ThreadsOk(c, s) && HashesDistinct(c) && !Blocked(s, a.effect)
    requires CacheLockFit(PcOf(s, t), a) && UrlLockFit(s, PcOf(s, t), a) && DataFit(c, s, PcOf(s, t), a)
    requires NextCallFit(c, s, a) && NextDataFit(c, s, a) && NextSweepFit(c, s, a)
    requires a.next.Lookup? ==> a.next.url in c.urls
    ensures ThreadsOk(c, Do(s, t, a))
  {
    var s' := Do(s, t, a);
    assert ThreadOk(c, s, t);
    forall x: Tid ensures ThreadOk(c, s', x) {
      assert ThreadOk(c, s, x);
      if x == t {
        KeepsOwnLocks(c, s, t, a);
        if a.next.Call? { KeepsOwnPhase(c, s, t, a); }
        KeepsOwnSweep(c, s, t, a);
      } else {
        KeepsOtherLocks(c, s, t, a, x);
        if PcOf(s, x).Call? { KeepsOtherPhase(c, s, t, a, x); }
        KeepsOtherSweep(c, s, t, a, x);
      }
    }
  }

  lemma DoKeepsInv(c: Config, s: State, t: Tid, a: Action)
    requires Inv(c, s) && HashesDistinct(c) && !Blocked(s, a.effect)
    requires CacheLockFit(PcOf(s, t), a) && UrlLockFit(s, PcOf(s, t), a) && DataFit(c, s, PcOf(s, t), a)
    requires NextCallFit(c, s, a) && NextDataFit(c, s, a) && NextSweepFit(c, s, a)
    requires a.next.Lookup? ==> a.next.url in c.urls
    ensures Inv(c, Do(s, t, a))
  {
    assert ThreadOk(c, s, t);
    KeepsMutexes(c, s, t, a);
    KeepsOwners(c, s, t, a);
    KeepsCache(c, s, t, a);
    KeepsDisk(c, s, t, a);
    KeepsGrants(c, s, t, a);
    KeepsThreads(c, s, t, a);
  }

  lemma LaterKeepsThread(c: Config, s: State, d: nat, t: Tid)
    requires ThreadOk(c, s, t)
    ensures ThreadOk(c, Later(s, d), t)
  {}

  lemma LaterKeepsGrant(c: Config, s: State, d: nat, g: Grant)
    requires GrantOk(c, s, g)
    ensures GrantOk(c, Later(s, d), g)
  {}

  lemma LaterKeepsFiles(c: Config, s: State, d: nat)
    requires CacheOk(c, s) && DiskOk(c, s)
    ensures CacheOk(c, Later(s, d)) && DiskOk(c, Later(s, d))
  {
    forall u ensures HolderPc(Later(s, d), u) == HolderPc(s, u) {}
  }

  lemma TickKeepsInv(c: Config, s: State, d: nat)
    requires Inv(c, s)
    ensures Inv(c, Later(s, d))
  {
    LaterKeepsFiles(c, s, d);
    forall g | g in s.granted ensures GrantOk(c, Later(s, d), g) { LaterKeepsGrant(c, s, d, g); }
    forall t: Tid ensures ThreadOk(c, Later(s, d), t) { LaterKeepsThread(c, s, d, t); }
  }

  lemma AdvanceKeepsInv(c: Config, s: State, t: Tid, ch: Choice, s': State)
    requires Inv(c, s) && HashesDistinct(c) && Try(s, t, ActionOf(c, s, PcOf(s, t), ch)) == Some(s')
    ensures Inv(c, s')
  {
    var a := ActionOf(c, s, PcOf(s, t), ch).value;
    assert ThreadOk(c, s, t);
    ActionCacheLock(c, s, PcOf(s, t), ch, a);
    ActionUrlLock(c, s, PcOf(s, t), ch, a);
    ActionData(c, s, t, ch, a);
    ActionNextCall(c, s, PcOf(s, t), ch, a);
    if a.next.Call? {
      ActionNextClock(c, s, PcOf(s, t), ch, a);
      ActionNextArchive(c, s, PcOf(s, t), ch, a);
    }
    ActionNextSweep(c, s, t, ch, a);
    DoKeepsInv(c, s, t, a);
  }

  lemma StartKeepsInv(c: Config, s: State, t: Tid, pc: Pc)
    requires Inv(c, s) && HashesDistinct(c) && PcOf(s, t).Idle?
    requires pc == SweepWait || (pc.Lookup? && pc.url in c.urls)
    ensures Inv(c, Do(s, t, Action(Nothing, pc)))
  {
    DoKeepsInv(c, s, t, Action(Nothing, pc));
  }

  lemma StepKeepsInv(c: Config, s: State, step: Step, s': State)
    requires Inv(c, s) && HashesDistinct(c) && Apply(c, s, step) == Some(s')
    ensures Inv(c, s')
  {
    match step
    case Tick(d) => TickKeepsInv(c, s, d);
    case StartClone(t, u) => StartKeepsInv(c, s, t, Lookup(u));
    case StartSweep(t) => StartKeepsInv(c, s, t, SweepWait);
    case Advance(t, ch) => AdvanceKeepsInv(c, s, t, ch, s');
  }

  // ---------------------------------------------------------------- whole runs

  /** The invariant holds in every state of every interleaving. */
  lemma {:induction false} RunKeepsInv(c: Config, states: seq<State>, steps: seq<Step>, i: nat)
    requires HashesDistinct(c) && IsRun(c, states, steps) && i < |states|
    ensures Inv(c, states[i])
    decreases i
  {
    if i == 0 {
      forall t: Tid ensures ThreadOk(c, states[0], t) {}
    } else {
      RunKeepsInv(c, states, steps, i - 1);
      StepKeepsInv(c, states[i - 1], steps[i - 1], states[i]);
    }
  }

  /** At most one thread is past the lock of a URL: a repository is never cloned twice at once. */
  lemma OneThreadPerUrl(c: Config, states: seq<State>, steps: seq<Step>, i: nat, t: Tid, x: Tid)
    requires HashesDistinct(c) && IsRun(c, states, steps) && i < |states|
    requires HoldsUrl(PcOf(states[i], t)) && HoldsUrl(PcOf(states[i], x))
    requires PcOf(states[i], t).url == PcOf(states[i], x).url
    ensures t == x
  {
    RunKeepsInv(c, states, steps, i);
    assert ThreadOk(c, states[i], t) && ThreadOk(c, states[i], x);
  }

  /** Every cached key has its archive on disk, nonempty and within the limit. */
  lemma CachedMeansArchived(c: Config, states: seq<State>, steps: seq<Step>, i: nat, u: Url)
    requires HashesDistinct(c) && IsRun(c, states, steps) && i < |states| && u in states[i].cache
    ensures states[i].cache[u].path == ZipOf(c, u)
    ensures Archived(c, states[i], u) || BeingSwept(states[i], u)
    ensures states[i].cacheOwner.None? ==> Archived(c, states[i], u)
  {
    RunKeepsInv(c, states, steps, i);
  }

  /** An archive or clone directory outside the cache exists only while its URL's lock is held. */
  lemma LeftoversAreGuarded(c: Config, states: seq<State>, steps: seq<Step>, i: nat, p: Path)
    requires HashesDistinct(c) && IsRun(c, states, steps) && i < |states| && p in states[i].disk
    ensures exists u :: u in c.urls && p.hash == c.hash(u)
                        && ((p.Zip? && u in states[i].cache) || HoldsUrl(HolderPc(states[i], u)))
  {
    RunKeepsInv(c, states, steps, i);
    var u :| u in c.urls && p.hash == c.hash(u);
    assert p == ZipOf(c, u) || p == SrcOf(c, u);
  }

  /** However a call ends, it leaves the disk of its URL equal to the cache. */
  lemma ExitLeavesDiskEqualCache(c: Config, states: seq<State>, steps: seq<Step>, i: nat, t: Tid)
    requires HashesDistinct(c) && IsRun(c, states, steps) && i < |states|
    requires PcOf(states[i], t).Call? && PcOf(states[i], t).at.Return?
    ensures var s, u := states[i], PcOf(states[i], t).url;
      && SrcOf(c, u) !in s.disk
      && (ZipOf(c, u) in s.disk ==> u in s.cache)
      && (u in s.cache ==> ZipOf(c, u) in s.disk || BeingSwept(s, u))
  {
    RunKeepsInv(c, states, steps, i);
    var s := states[i];
    assert ThreadOk(c, s, t);
    assert HolderPc(s, PcOf(s, t).url) == PcOf(s, t);
  }

  /** With no call past a URL lock and the cache lock free, the disk holds the cached archives and nothing else. */
  lemma QuietDiskIsTheCache(c: Config, states: seq<State>, steps: seq<Step>, i: nat)
    requires HashesDistinct(c) && IsRun(c, states, steps) && i < |states|
    requires states[i].owner == map[] && states[i].cacheOwner.None?
    ensures states[i].disk.Keys == set u | u in states[i].cache :: ZipOf(c, u)
  {
    RunKeepsInv(c, states, steps, i);
    var s := states[i];
    forall p | p in s.disk ensures exists u :: u in s.cache && p == ZipOf(c, u) {
      LeftoversAreGuarded(c, states, steps, i, p);
      var u :| u in c.urls && p.hash == c.hash(u) && ((p.Zip? && u in s.cache) || HoldsUrl(HolderPc(s, u)));
      assert p == ZipOf(c, u);
    }
  }

  lemma {:induction false} GrantsStay(c: Config, states: seq<State>, steps: seq<Step>, i: nat, j: nat, g: Grant)
    requires IsRun(c, states, steps) && i <= j < |states| && g in states[i].granted
    ensures g in states[j].granted
    decreases j
  {
    if i < j { GrantsStay(c, states, steps, i, j - 1, g); }
  }

  lemma {:induction false} ClockGrows(c: Config, states: seq<State>, steps: seq<Step>, i: nat, j: nat)
    requires IsRun(c, states, steps) && i <= j < |states|
    ensures states[i].now <= states[j].now
    decreases j
  {
    if i < j { ClockGrows(c, states, steps, i, j - 1); }
  }

  /** The step removes what the path holds, or writes it. */
  predicate Touches(c: Config, s: State, step: Step, p: Path) {
    step.Advance? &&
    var a := ActionOf(c, s, PcOf(s, step.thread), step.choice);
    a.Some? && (a.value.effect == Delete(p) || (a.value.effect.Output? && a.value.effect.path == p))
  }

  /** Before a grant runs out, no step touches its archive. */
  lemma GrantIsSpared(c: Config, s: State, step: Step, g: Grant)
    requires HashesDistinct(c) && CacheOk(c, s) && ThreadsOk(c, s) && GrantOk(c, s, g) && s.now < g.stamp + c.ttl
    ensures !Touches(c, s, step, ZipOf(c, g.url))
  {
    if step.Advance? {
      var pc := PcOf(s, step.thread);
      var a := ActionOf(c, s, pc, step.choice);
      assert ThreadOk(c, s, step.thread);
      if a.Some? {
        ActionData(c, s, step.thread, step.choice, a.value);
        SparesFit(c, s, step.thread, a.value, g);
      }
    }
  }

  lemma SparesFit(c: Config, s: State, t: Tid, a: Action, g: Grant)
    requires HashesDistinct(c) && CacheOk(c, s) && ThreadOk(c, s, t) && GrantOk(c, s, g) && s.now < g.stamp + c.ttl
    requires DataFit(c, s, PcOf(s, t), a)
    ensures a.effect.Delete? || a.effect.Output? ==> a.effect.path != ZipOf(c, g.url)
  {}

  /**
   An archive handed out with its entry stamped g.stamp is there and cached in every later state with the clock below
   g.stamp + ttl, whatever other calls and sweeps do; no step up to then deletes or writes it, and the stamp of its
   entry never goes back.
   */
  lemma GrantedArchiveStays(c: Config, states: seq<State>, steps: seq<Step>, i: nat, j: nat, g: Grant)
    requires HashesDistinct(c) && IsRun(c, states, steps) && i <= j < |states|
    requires g in states[i].granted && states[j].now < g.stamp + c.ttl
    ensures g.url in states[j].cache && g.stamp <= states[j].cache[g.url].lastUsed
    ensures ZipOf(c, g.url) in states[j].disk && states[j].disk[ZipOf(c, g.url)] == g.file
    ensures forall k | i <= k < j :: !Touches(c, states[k], steps[k], ZipOf(c, g.url))
  {
    RunKeepsInv(c, states, steps, j);
    GrantsStay(c, states, steps, i, j, g);
    assert GrantOk(c, states[j], g);
    forall k | i <= k < j ensures !Touches(c, states[k], steps[k], ZipOf(c, g.url)) {
      RunKeepsInv(c, states, steps, k);
      GrantsStay(c, states, steps, i, k, g);
      ClockGrows(c, states, steps, k, j);
      assert GrantOk(c, states[k], g);
      GrantIsSpared(c, states[k], steps[k], g);
    }
  }

  /** A call that succeeds returns an archive that was granted for its URL. */
  lemma SuccessIsGranted(c: Config, states: seq<State>, steps: seq<Step>, i: nat, t: Tid)
    requires HashesDistinct(c) && IsRun(c, states, steps) && i < |states|
    requires PcOf(states[i], t).Call? && PcOf(states[i], t).at.Return? && PcOf(states[i], t).at.granted.Some?
    ensures var g := PcOf(states[i], t).at.granted.value;
      g in states[i].granted && g.url == PcOf(states[i], t).url
  {
    RunKeepsInv(c, states, steps, i);
    assert ThreadOk(c, states[i], t);
  }

  /** A repository is cloned again only when every archive handed out for it has outlived its time. */
  lemma ClonesOnlyAfterExpiry(c: Config, states: seq<State>, steps: seq<Step>, i: nat, t: Tid, g: Grant)
    requires HashesDistinct(c) && IsRun(c, states, steps) && i < |states|
    requires PcOf(states[i], t).Call? && PcOf(states[i], t).at.Git?
    requires g in states[i].granted && g.url == PcOf(states[i], t).url
    ensures g.stamp + c.ttl <= states[i].now
  {
    RunKeepsInv(c, states, steps, i);
    assert ThreadOk(c, states[i], t) && GrantOk(c, states[i], g);
  }

  /** The step from a fresh entry to the hit. */
  lemma HitIsFresh(c: Config, s: State, step: Step, s': State, t: Tid)
    requires ThreadOk(c, s, t) && CacheOk(c, s) && Apply(c, s, step) == Some(s')
    requires PcOf(s, t).Call? && PcOf(s, t).at.Decide? && PcOf(s', t).Call? && PcOf(s', t).at.LeaveHit?
    ensures var u, g := PcOf(s, t).url, PcOf(s', t).at.grant;
      && u in s.cache && 0 <= g.stamp - s.cache[u].lastUsed < c.ttl
      && ZipOf(c, u) in s.disk && g.file == s.disk[ZipOf(c, u)] && s'.cache == s.cache[u := Entry(ZipOf(c, u), g.stamp)]
  {
    assert step.Advance? && step.thread == t;
    assert !BeingSwept(s, PcOf(s, t).url);
  }

  /** A hit is served only while its entry is younger than the TTL, from the file on disk, and refreshes it. */
  lemma HitsAreFresh(c: Config, states: seq<State>, steps: seq<Step>, i: nat, t: Tid)
    requires HashesDistinct(c) && IsRun(c, states, steps) && i < |steps|
    requires PcOf(states[i], t).Call? && PcOf(states[i], t).at.Decide?
    requires PcOf(states[i + 1], t).Call? && PcOf(states[i + 1], t).at.LeaveHit?
    ensures var u, g := PcOf(states[i], t).url, PcOf(states[i + 1], t).at.grant;
      && u in states[i].cache && 0 <= g.stamp - states[i].cache[u].lastUsed < c.ttl
      && ZipOf(c, u) in states[i].disk && g.file == states[i].disk[ZipOf(c, u)]
      && states[i + 1].cache == states[i].cache[u := Entry(ZipOf(c, u), g.stamp)]
  {
    RunKeepsInv(c, states, steps, i);
    assert ThreadOk(c, states[i], t);
    HitIsFresh(c, states[i], steps[i], states[i + 1], t);
  }

  /** The leftovers a call cleans up before cloning are never there. */
  lemma NothingToCleanUp(c: Config, states: seq<State>, steps: seq<Step>, i: nat, t: Tid)
    requires HashesDistinct(c) && IsRun(c, states, steps) && i < |states|
    requires PcOf(states[i], t).Call? && (PcOf(states[i], t).at.CleanSrc? || PcOf(states[i], t).at.CleanZip?)
    ensures var u := PcOf(states[i], t).url; SrcOf(c, u) !in states[i].disk && ZipOf(c, u) !in states[i].disk
  {
    RunKeepsInv(c, states, steps, i);
    assert ThreadOk(c, states[i], t);
    assert HolderPc(states[i], PcOf(states[i], t).url) == PcOf(states[i], t);
  }

  /** A sweep leaves no entry that was expired at the clock it read. */
  lemma SweepLeavesOnlyFresh(c: Config, states: seq<State>, steps: seq<Step>, i: nat, t: Tid, u: Url)
    requires HashesDistinct(c) && IsRun(c, states, steps) && i < |states|
    requires PcOf(states[i], t).SweepScan? && PcOf(states[i], t).todo == {} && u in states[i].cache
    ensures PcOf(states[i], t).now - states[i].cache[u].lastUsed < c.ttl
  {
    RunKeepsInv(c, states, steps, i);
    assert ThreadOk(c, states[i], t);
  }

  // ---------------------------------------------------------------- no deadlock

  /** A thread that is not waiting for a lock can always step. */
  lemma CanAdvance(c: Config, s: State, t: Tid) returns (ch: Choice)
    requires ThreadOk(c, s, t) && !PcOf(s, t).Idle?
    requires ActionOf(c, s, PcOf(s, t), Go).Some? ==> !Blocked(s, ActionOf(c, s, PcOf(s, t), Go).value.effect)
    ensures Apply(c, s, Advance(t, ch)).Some?
  {
    var pc := PcOf(s, t);
    if pc.Call? && (pc.at.Git? || pc.at.Pack?) {
      ch := Finish(true);
    } else if pc.SweepScan? && pc.todo != {} {
      var u :| u in pc.todo;
      ch := Visit(u);
    } else {
      ch := Go;
    }
  }

  /** A thread that holds a lock never waits for the same or an earlier one. */
  lemma GoLocks(c: Config, s: State, pc: Pc)
    requires ActionOf(c, s, pc, Go).Some?
    ensures var e := ActionOf(c, s, pc, Go).value.effect;
      && (e.LockUrl? ==> pc.Call? && pc.at.Wait? && e.mutex == pc.mutex)
      && (e.LockCache? ==> !HoldsCache(pc))
  {}

  /** A thread that every chain of waiting from t ends in. */
  lemma Unblocked(c: Config, s: State, t: Tid) returns (x: Tid)
    requires OwnersOk(s) && !PcOf(s, t).Idle?
    ensures !PcOf(s, x).Idle?
    ensures ActionOf(c, s, PcOf(s, x), Go).Some? ==> !Blocked(s, ActionOf(c, s, PcOf(s, x), Go).value.effect)
  {
    if s.cacheOwner.Some? {
      x := s.cacheOwner.value;
    } else if PcOf(s, t).Call? && PcOf(s, t).at.Wait? && PcOf(s, t).mutex in s.owner {
      x := s.owner[PcOf(s, t).mutex];
    } else {
      x := t;
    }
    if ActionOf(c, s, PcOf(s, x), Go).Some? { GoLocks(c, s, PcOf(s, x)); }
  }

  /** While a call or sweep is under way, some thread can step: the two kinds of lock never deadlock. */
  lemma NeverStuck(c: Config, states: seq<State>, steps: seq<Step>, i: nat, t: Tid) returns (x: Tid, ch: Choice)
    requires HashesDistinct(c) && IsRun(c, states, steps) && i < |states|
    requires !PcOf(states[i], t).Idle?
    ensures Apply(c, states[i], Advance(x, ch)).Some?
  {
    RunKeepsInv(c, states, steps, i);
    x := Unblocked(c, states[i], t);
    assert ThreadOk(c, states[i], x);
    ch := CanAdvance(c, states[i], x);
  }
}
