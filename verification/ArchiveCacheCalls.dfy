/** When a call of the archive cache succeeds: what happened in it, told from the steps of the run, decides. */
module ArchiveCacheCalls {
  import opened Wrappers
  import opened ArchiveCache

  /**
   What has happened in the current call of a thread: whether it found a fresh entry, how its last git step and its last
   zip step ended (None while the tool is at work), the size of the archive then, and the clock when it was last read.
   */
  datatype Story = Story(served: bool, git: Option<bool>, zip: Option<bool>, size: nat, clock: int)

  const UNTOLD := Story(false, None, None, 0, 0)

  /** How the tool's step ended it. */
  function EndOf(ch: Choice): Option<bool> {
    if ch.Finish? then Some(ch.ok) else None
  }

  /** One step of the run, seen from thread t. */
  function Told(c: Config, h: Story, s: State, t: Tid, step: Step, s': State): Story {
    if !PcOf(s', t).Call? then UNTOLD
    else if !PcOf(s, t).Call? || !step.Advance? || step.thread != t then h
    else
      var u, at := PcOf(s, t).url, PcOf(s, t).at;
      if at.Decide? then h.(served := u in s.cache && h.clock - s.cache[u].lastUsed < c.ttl)
      else if at.Git? then h.(git := EndOf(step.choice))
      else if at.Pack? then h.(zip := EndOf(step.choice), size := FileAt(s', ZipOf(c, u)).size)
      else if at.Probe? || at.Stamp? then h.(clock := s.now)
      else h
  }

  function StoryAt(c: Config, states: seq<State>, steps: seq<Step>, i: nat, t: Tid): Story
    requires |states| == |steps| + 1 && i < |states|
  {
    if i == 0 then UNTOLD
    else Told(c, StoryAt(c, states, steps, i - 1, t), states[i - 1], t, steps[i - 1], states[i])
  }

  predicate Built(c: Config, h: Story) {
    h.git == Some(true) && h.zip == Some(true) && 1 <= h.size <= c.maxBytes
  }

  // ---------------------------------------------------------------- the story fits the phase

  /** Phases before git has ended. */
  predicate IsEarly(at: Phase) {
    || at.Wait? || at.Fast? || at.Probe? || at.Decide? || at.DropStale? || at.LeaveMiss?
    || at.CleanSrc? || at.CleanZip? || at.Git?
  }

  ghost predicate Fits(c: Config, s: State, u: Url, at: Phase, h: Story) {
    && (IsEarly(at) ==> !h.served && h.git == None && h.zip == None)
    && (at.GitFailed? ==> !h.served && h.git == Some(false) && h.zip == None)
    && (at.Pack? ==> !h.served && h.git == Some(true) && h.zip == None)
    && (at.PackFailedSrc? || at.PackFailedZip? ==> !h.served && h.zip == Some(false))
    && (at.DropSrc? || at.Measure? ==>
          !h.served && h.git == Some(true) && h.zip == Some(true) && h.size == FileAt(s, ZipOf(c, u)).size)
    && (at.TooBig? ==> !h.served && !Built(c, h))
    && (at.Publish? || at.Stamp? || at.Store? ==> Built(c, h))
    && (at.LeaveHit? ==> (h.served || Built(c, h)) && at.grant.stamp == h.clock)
    && (at.Return? ==> (at.granted.Some? <==> h.served || Built(c, h)))
    && (at.Return? && at.granted.Some? ==> at.granted.value.stamp == h.clock)
    && (at.Decide? || at.Store? ==> h.clock == at.now)
  }

  /** The thread's own step from a phase before git. */
  lemma EarlyStep(c: Config, s: State, t: Tid, u: Url, m: nat, at: Phase, ch: Choice, a: Action, h: Story)
    requires IsEarly(at) && Fits(c, s, u, at, h) && PcOf(s, t) == Call(u, m, at)
    requires CallAction(c, s, u, m, at, ch) == Some(a) && a.next.Call?
    ensures Fits(c, Do(s, t, a), u, a.next.at, Told(c, h, s, t, Advance(t, ch), Do(s, t, a)))
  {}

  /** From zip on, up to the measuring. */
  lemma PackStep(c: Config, s: State, t: Tid, u: Url, m: nat, at: Phase, ch: Choice, a: Action, h: Story)
    requires (at.Pack? || at.DropSrc? || at.Measure?) && Fits(c, s, u, at, h) && PcOf(s, t) == Call(u, m, at)
    requires CallAction(c, s, u, m, at, ch) == Some(a) && a.next.Call?
    ensures Fits(c, Do(s, t, a), u, a.next.at, Told(c, h, s, t, Advance(t, ch), Do(s, t, a)))
  {}

  /** After that. */
  lemma LateStep(c: Config, s: State, t: Tid, u: Url, m: nat, at: Phase, ch: Choice, a: Action, h: Story)
    requires !IsEarly(at) && !at.Pack? && !at.DropSrc? && !at.Measure? && Fits(c, s, u, at, h)
    requires PcOf(s, t) == Call(u, m, at) && CallAction(c, s, u, m, at, ch) == Some(a) && a.next.Call?
    ensures Fits(c, Do(s, t, a), u, a.next.at, Told(c, h, s, t, Advance(t, ch), Do(s, t, a)))
  {}

  /** Nobody else touches the archive of a call that is between zip and measuring. */
  lemma OthersSpareArchive(c: Config, s: State, x: Tid, a: Action, t: Tid)
    requires HashesDistinct(c) && CacheOk(c, s) && x != t && ThreadOk(c, s, x) && ThreadOk(c, s, t)
    requires DataFit(c, s, PcOf(s, x), a) && PcOf(s, t).Call? && (PcOf(s, t).at.DropSrc? || PcOf(s, t).at.Measure?)
    ensures FileAt(Do(s, x, a), ZipOf(c, PcOf(s, t).url)) == FileAt(s, ZipOf(c, PcOf(s, t).url))
  {}

  ghost predicate FitsThread(c: Config, s: State, t: Tid, h: Story) {
    if PcOf(s, t).Call? then Fits(c, s, PcOf(s, t).url, PcOf(s, t).at, h) else h == UNTOLD
  }

  lemma OwnStep(c: Config, s: State, t: Tid, ch: Choice, a: Action, h: Story)
    requires FitsThread(c, s, t, h) && ActionOf(c, s, PcOf(s, t), ch) == Some(a)
    ensures FitsThread(c, Do(s, t, a), t, Told(c, h, s, t, Advance(t, ch), Do(s, t, a)))
  {
    var pc := PcOf(s, t);
    if pc.Call? && a.next.Call? {
      ActionUrlLock(c, s, pc, ch, a);
      if IsEarly(pc.at) {
        EarlyStep(c, s, t, pc.url, pc.mutex, pc.at, ch, a, h);
      } else if pc.at.Pack? || pc.at.DropSrc? || pc.at.Measure? {
        PackStep(c, s, t, pc.url, pc.mutex, pc.at, ch, a, h);
      } else {
        LateStep(c, s, t, pc.url, pc.mutex, pc.at, ch, a, h);
      }
    }
  }

  lemma OtherStep(c: Config, s: State, x: Tid, ch: Choice, a: Action, t: Tid, h: Story)
    requires Inv(c, s) && HashesDistinct(c) && x != t && FitsThread(c, s, t, h)
    requires ActionOf(c, s, PcOf(s, x), ch) == Some(a)
    ensures FitsThread(c, Do(s, x, a), t, h)
  {
    assert ThreadOk(c, s, x) && ThreadOk(c, s, t);
    if PcOf(s, t).Call? && (PcOf(s, t).at.DropSrc? || PcOf(s, t).at.Measure?) {
      ActionData(c, s, x, ch, a);
      OthersSpareArchive(c, s, x, a, t);
    }
  }

  lemma StoryStep(c: Config, s: State, step: Step, s': State, t: Tid, h: Story)
    requires Inv(c, s) && HashesDistinct(c) && Apply(c, s, step) == Some(s') && FitsThread(c, s, t, h)
    ensures FitsThread(c, s', t, Told(c, h, s, t, step, s'))
  {
    if step.Advance? {
      var a := ActionOf(c, s, PcOf(s, step.thread), step.choice).value;
      if step.thread == t {
        OwnStep(c, s, t, step.choice, a, h);
      } else {
        OtherStep(c, s, step.thread, step.choice, a, t, h);
      }
    }
  }

  /** The step into state i of a run. */
  lemma RunStoryStep(c: Config, states: seq<State>, steps: seq<Step>, i: nat, t: Tid, h: Story)
    requires HashesDistinct(c) && IsRun(c, states, steps) && 0 < i < |states| && FitsThread(c, states[i - 1], t, h)
    ensures FitsThread(c, states[i], t, Told(c, h, states[i - 1], t, steps[i - 1], states[i]))
  {
    var k := i - 1;
    RunKeepsInv(c, states, steps, k);
    assert Apply(c, states[k], steps[k]) == Some(states[k + 1]);
    StoryStep(c, states[k], steps[k], states[k + 1], t, h);
  }

  lemma {:induction false} StoryFits(c: Config, states: seq<State>, steps: seq<Step>, i: nat, t: Tid)
    requires HashesDistinct(c) && IsRun(c, states, steps) && i < |states|
    ensures FitsThread(c, states[i], t, StoryAt(c, states, steps, i, t))
    decreases i
  {
    if i == 0 {
      assert PcOf(states[0], t) == Idle;
    } else {
      StoryFits(c, states, steps, i - 1, t);
      RunStoryStep(c, states, steps, i, t, StoryAt(c, states, steps, i - 1, t));
    }
  }

  /**
   In every interleaving, a call that is about to return hands out an archive if and only if it found a fresh entry, or
   its last git step and its last zip step both ended well and its archive was then nonempty and within the limit.
   */
  lemma SucceedsIff(c: Config, states: seq<State>, steps: seq<Step>, i: nat, t: Tid)
    requires HashesDistinct(c) && IsRun(c, states, steps) && i < |states|
    requires PcOf(states[i], t).Call? && PcOf(states[i], t).at.Return?
    ensures var h := StoryAt(c, states, steps, i, t);
      PcOf(states[i], t).at.granted.Some?
      <==> h.served || (h.git == Some(true) && h.zip == Some(true) && 1 <= h.size <= c.maxBytes)
    ensures PcOf(states[i], t).at.granted.Some? ==>
      PcOf(states[i], t).at.granted.value.stamp == StoryAt(c, states, steps, i, t).clock
  {
    StoryFits(c, states, steps, i, t);
  }
}
