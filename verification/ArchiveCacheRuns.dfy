/**
 Runs of the archive cache that do happen: a first call clones and succeeds, a second one is served from the cache.
 */
module ArchiveCacheRuns {
  import opened Wrappers
  import opened ArchiveCache

  /** Some run ends in the state. */
  ghost predicate Reachable(c: Config, s: State) {
    exists states, steps :: IsRun(c, states, steps) && states[|states| - 1] == s
  }

  const START := State(0, map[], map[], map[], map[], None, map[], 0, {})

  lemma Begin(c: Config)
    ensures Reachable(c, START)
  {
    assert IsRun(c, [START], []);
  }

  lemma Extend(c: Config, s: State, step: Step) returns (s': State)
    requires Reachable(c, s) && Apply(c, s, step).Some?
    ensures Reachable(c, s') && s' == Apply(c, s, step).value
  {
    s' := Apply(c, s, step).value;
    var states, steps :| IsRun(c, states, steps) && states[|states| - 1] == s;
    RunGrows(c, states, steps, step, s');
  }

  lemma RunGrows(c: Config, states: seq<State>, steps: seq<Step>, step: Step, s: State)
    requires IsRun(c, states, steps) && Apply(c, states[|states| - 1], step) == Some(s)
    ensures IsRun(c, states + [s], steps + [step])
  {
    forall i | 0 <= i < |steps + [step]|
      ensures Apply(c, (states + [s])[i], (steps + [step])[i]) == Some((states + [s])[i + 1])
    {
      if i < |steps| { assert Apply(c, states[i], steps[i]) == Some(states[i + 1]); }
    }
  }

  /** Only thread t is in a call, for u, behind its lock; it holds the cache lock where it should. */
  ghost predicate Alone(s: State, t: Tid, u: Url, at: Phase) {
    && PcOf(s, t) == Call(u, 0, at) && s.mutexes == map[u := 0] && s.owner == map[0 := t]
    && s.cacheOwner == (if HoldsCache(Call(u, 0, at)) then Some(t) else None)
  }

  /** From the start of a call to in front of its lock. */
  lemma Arrive(c: Config, s: State, t: Tid, u: Url) returns (s': State)
    requires Reachable(c, s) && u in c.urls && PcOf(s, t).Idle? && (s.mutexes == map[] || s.mutexes == map[u := 0])
    ensures Reachable(c, s') && PcOf(s', t) == Call(u, 0, Wait) && s'.mutexes == map[u := 0]
    ensures s'.owner == s.owner && s'.cacheOwner == s.cacheOwner
    ensures s'.cache == s.cache && s'.disk == s.disk && s'.now == s.now && s'.granted == s.granted
  {
    s' := Extend(c, s, StartClone(t, u));
    assert MutexOf(s', u) == 0;
    s' := Extend(c, s', Advance(t, Go));
    assert s'.mutexes == map[u := 0];
  }

  lemma Lock(c: Config, s: State, t: Tid, u: Url) returns (s': State)
    requires Reachable(c, s) && PcOf(s, t) == Call(u, 0, Wait) && s.mutexes == map[u := 0]
    requires s.owner == map[] && s.cacheOwner == None
    ensures Reachable(c, s') && Alone(s', t, u, Fast)
    ensures s'.cache == s.cache && s'.disk == s.disk && s'.now == s.now && s'.granted == s.granted
  {
    s' := Extend(c, s, Advance(t, Go));
    assert s'.owner == map[0 := t];
  }

  /** From the start of a call to behind the fast path's lock. */
  lemma Enter(c: Config, s: State, t: Tid, u: Url) returns (s': State)
    requires Reachable(c, s) && u in c.urls && PcOf(s, t).Idle?
    requires s.owner == map[] && s.cacheOwner == None && (s.mutexes == map[] || s.mutexes == map[u := 0])
    ensures Reachable(c, s') && Alone(s', t, u, Probe)
    ensures s'.cache == s.cache && s'.disk == s.disk && s'.now == s.now && s'.granted == s.granted
  {
    s' := Arrive(c, s, t, u);
    s' := Lock(c, s', t, u);
    s' := Turn(c, s', t, u, Fast, Go, LockCache, Probe);
  }

  /** A turn of the call behind its lock: what changes besides the program counter and the cache lock. */
  lemma Turn(c: Config, s: State, t: Tid, u: Url, at: Phase, ch: Choice, e: Effect, next: Phase) returns (s': State)
    requires Reachable(c, s) && Alone(s, t, u, at)
    requires CallAction(c, s, u, 0, at, ch) == Some(Action(e, Call(u, 0, next)))
    requires !e.LockUrl? && !e.UnlockUrl? && !e.AddMutex?
    ensures Reachable(c, s') && Alone(s', t, u, next)
    ensures s'.cache == CacheAfter(s, e) && s'.disk == DiskAfter(s, e) && s'.now == s.now
    ensures s'.granted == if e.SetEntry? then s.granted + {e.grant} else s.granted
  {
    ActionCacheLock(c, s, PcOf(s, t), ch, Action(e, Call(u, 0, next)));
    s' := Extend(c, s, Advance(t, ch));
  }

  /** A miss: up to running git. */
  lemma Miss(c: Config, s: State, t: Tid, u: Url) returns (s': State)
    requires Reachable(c, s) && Alone(s, t, u, Probe) && u !in s.cache
    ensures Reachable(c, s') && Alone(s', t, u, Git) && s'.now == s.now
  {
    s' := Turn(c, s, t, u, Probe, Go, Nothing, LeaveMiss);
    s' := Turn(c, s', t, u, LeaveMiss, Go, UnlockCache, CleanSrc);
    s' := Turn(c, s', t, u, CleanSrc, Go, Delete(SrcOf(c, u)), CleanZip);
    s' := Turn(c, s', t, u, CleanZip, Go, Delete(ZipOf(c, u)), Git);
  }

  /** git succeeds. */
  lemma Clone(c: Config, s: State, t: Tid, u: Url) returns (s': State)
    requires Reachable(c, s) && Alone(s, t, u, Git)
    ensures Reachable(c, s') && Alone(s', t, u, Pack) && s'.now == s.now
  {
    s' := Turn(c, s, t, u, Git, Touch(1), Output(SrcOf(c, u), 1), Git);
    s' := Turn(c, s', t, u, Git, Finish(true), Nothing, Pack);
  }

  /** zip succeeds. */
  lemma Archive(c: Config, s: State, t: Tid, u: Url) returns (s': State)
    requires Reachable(c, s) && Alone(s, t, u, Pack)
    ensures Reachable(c, s') && Alone(s', t, u, DropSrc) && s'.now == s.now && FileAt(s', ZipOf(c, u)).size == 1
  {
    s' := Turn(c, s, t, u, Pack, Touch(1), Output(ZipOf(c, u), 1), Pack);
    s' := Turn(c, s', t, u, Pack, Finish(true), Nothing, DropSrc);
  }

  /** The archive is one byte long. */
  lemma Check(c: Config, s: State, t: Tid, u: Url) returns (s': State)
    requires Reachable(c, s) && Alone(s, t, u, DropSrc) && FileAt(s, ZipOf(c, u)).size == 1 && c.maxBytes >= 1
    ensures Reachable(c, s') && Alone(s', t, u, Publish) && s'.now == s.now
  {
    s' := Turn(c, s, t, u, DropSrc, Go, Delete(SrcOf(c, u)), Measure);
    assert FileAt(s', ZipOf(c, u)).size == 1;
    s' := Turn(c, s', t, u, Measure, Go, Nothing, Publish);
  }

  lemma ReadClock(c: Config, s: State, t: Tid, u: Url) returns (s': State)
    requires Reachable(c, s) && Alone(s, t, u, Publish)
    ensures Reachable(c, s') && Alone(s', t, u, Store(s.now)) && s'.now == s.now
  {
    s' := Turn(c, s, t, u, Publish, Go, LockCache, Stamp);
    s' := Turn(c, s', t, u, Stamp, Go, Nothing, Store(s.now));
  }

  /** The entry is written, the archive handed out and the cache lock given back. */
  lemma HandOut(c: Config, s: State, t: Tid, u: Url) returns (s': State, g: Grant)
    requires Reachable(c, s) && Alone(s, t, u, Store(s.now))
    ensures Reachable(c, s') && Alone(s', t, u, Return(Some(g)))
    ensures g in s'.granted && g.url == u && g.stamp == s'.now == s.now
    ensures u in s'.cache && s'.cache[u].lastUsed == g.stamp
  {
    g := Grant(u, s.now, FileAt(s, ZipOf(c, u)));
    s' := Turn(c, s, t, u, Store(g.stamp), Go, SetEntry(g, ZipOf(c, u)), LeaveHit(g));
    s' := Turn(c, s', t, u, LeaveHit(g), Go, UnlockCache, Return(Some(g)));
  }

  /** For every URL in use and every limit of at least one byte, a call can succeed. */
  lemma CloneCanSucceed(c: Config, t: Tid, u: Url) returns (s: State, g: Grant)
    requires u in c.urls && c.maxBytes >= 1
    ensures Reachable(c, s) && Alone(s, t, u, Return(Some(g)))
    ensures g in s.granted && g.url == u && g.stamp == s.now && u in s.cache && s.cache[u].lastUsed == g.stamp
  {
    Begin(c);
    s := Enter(c, START, t, u);
    s := Miss(c, s, t, u);
    s := Clone(c, s, t, u);
    s := Archive(c, s, t, u);
    s := Check(c, s, t, u);
    s := ReadClock(c, s, t, u);
    s, g := HandOut(c, s, t, u);
  }

  /** And with a positive TTL a second call is served from the cache, without running git. */
  lemma SecondCallCanHit(c: Config, t: Tid, u: Url) returns (s: State, g: Grant, h: Grant)
    requires u in c.urls && c.maxBytes >= 1 && c.ttl >= 1
    ensures Reachable(c, s) && g in s.granted && h in s.granted && Alone(s, t, u, LeaveHit(h))
    ensures g.url == h.url == u && s.now < g.stamp + c.ttl
  {
    s, g := CloneCanSucceed(c, t, u);
    s := Extend(c, s, Advance(t, Go));
    assert s.owner == map[];
    s := Enter(c, s, t, u);
    s, h := Hit(c, s, t, u);
  }

  lemma Hit(c: Config, s: State, t: Tid, u: Url) returns (s': State, h: Grant)
    requires Reachable(c, s) && Alone(s, t, u, Probe) && u in s.cache && !Expired(c, s.cache[u], s.now)
    ensures Reachable(c, s') && Alone(s', t, u, LeaveHit(h)) && h.url == u
    ensures s'.now == s.now && s'.granted == s.granted + {h}
  {
    s' := Turn(c, s, t, u, Probe, Go, Nothing, Decide(s.now));
    h := Grant(u, s.now, FileAt(s', s'.cache[u].path));
    s' := Turn(c, s', t, u, Decide(s.now), Go, SetEntry(h, s'.cache[u].path), LeaveHit(h));
  }
}
