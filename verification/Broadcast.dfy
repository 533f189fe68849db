/**
 /gnotify of core/src/commands/moderation_commands.cpp: one text to every known chat
 that is not a banned user's, and one summary when the last send has settled.
 */
module Broadcast {
  import opened Wrappers
  import opened Callbacks
  import U = Updates

  datatype Summary = Summary(sent: nat, chats: nat, excluded: nat)

  // ---------------------------------------------------------------- the counters

  /** pending, sent, and the summaries replied so far. */
  datatype Progress = Progress(pending: int, sent: nat, replies: seq<Summary>)

  function Told(p: Progress, chats: nat, excluded: nat, id: int): Progress {
    var sent := if id > 0 then p.sent + 1 else p.sent;
    var replies := if p.pending - 1 == 0 then p.replies + [Summary(sent, chats, excluded)] else p.replies;
    Progress(p.pending - 1, sent, replies)
  }

  class Counters {
    const chatCount: nat
    const excludedBanned: nat
    var pending: int
    var sent: nat
    var replies: seq<Summary>

    ghost function Contents(): Progress
      reads this
    {
      Progress(pending, sent, replies)
    }

    constructor (chats: nat, excluded: nat)
      ensures Contents() == Progress(chats, 0, []) && chatCount == chats && excludedBanned == excluded
    {
      chatCount, excludedBanned, pending, sent, replies := chats, excluded, chats, 0, [];
    }

    /** The callback given to every send. */
    method OnSent(id: int)
      modifies this
      ensures Contents() == Told(old(Contents()), chatCount, excludedBanned, id)
    {
      if id > 0 {
        sent := sent + 1;
      }
      pending := pending - 1;
      if pending != 0 {
        return;
      }
      replies := replies + [Summary(sent, chatCount, excludedBanned)];
    }
  }

  // ---------------------------------------------------------------- starting the broadcast

  /** Private chats of banned users are left out. */
  predicate IsExcluded(chat: int, banned: set<int>) {
    chat > 0 && chat in banned
  }

  function Reachable(all: seq<int>, banned: set<int>): (chats: seq<int>)
    ensures |chats| <= |all|
  {
    if all == [] then []
    else Reachable(all[..|all| - 1], banned) + (if IsExcluded(all[|all| - 1], banned) then [] else [all[|all| - 1]])
  }

  function Sends(chats: seq<int>): seq<Step> {
    if chats == [] then [] else Sends(chats[..|chats| - 1]) + [Send(Some(Text(chats[|chats| - 1], true)))]
  }

  datatype Outcome = EmptyText | NoChats | NobodyLeft | Started(counters: Counters, first: nat)

  /** executeGNotify, after the rank check; request first + i is the send to the i-th reachable chat. */
  method ExecuteGNotify(client: TdlibClient, text: seq<char>, all: seq<int>, banned: set<int>)
    returns (outcome: Outcome)
    modifies client
    ensures text == "" ==> outcome == EmptyText
    ensures text != "" && all == [] ==> outcome == NoChats
    ensures text != "" && all != [] && Reachable(all, banned) == [] ==> outcome == NobodyLeft
    ensures outcome.Started? <==> text != "" && Reachable(all, banned) != []
    ensures outcome.Started? ==> fresh(outcome.counters) && outcome.first == old(client.nextRequestId)
    ensures outcome.Started? ==> outcome.counters.Contents() == Progress(|Reachable(all, banned)|, 0, [])
    ensures outcome.Started? ==> outcome.counters.chatCount == |Reachable(all, banned)|
    ensures outcome.Started? ==> outcome.counters.chatCount + outcome.counters.excludedBanned == |all|
    ensures client.Contents()
         == After(old(client.Contents()), if outcome.Started? then Sends(Reachable(all, banned)) else [])
  {
    if text == "" {
      return EmptyText;
    }
    if all == [] {
      return NoChats;
    }
    var chats, excluded := SelectChats(all, banned);
    if chats == [] {
      return NobodyLeft;
    }
    var counters := new Counters(|chats|, excluded);
    var first := client.nextRequestId;
    for k := 0 to |chats|
      invariant client.Contents() == After(old(client.Contents()), Sends(chats[..k]))
      invariant counters.Contents() == Progress(|chats|, 0, [])
    {
      var id := client.SendRequest(Some(Text(chats[k], true)));
      SendsStep(old(client.Contents()), chats, k);
    }
    assert chats[..|chats|] == chats;
    return Started(counters, first);
  }

  lemma SendsStep(c: Client, chats: seq<int>, k: nat)
    requires k < |chats|
    ensures After(c, Sends(chats[..k + 1])) == Next(After(c, Sends(chats[..k])), Send(Some(Text(chats[k], true))))
  {
    assert chats[..k + 1][..k] == chats[..k];
    var all := Sends(chats[..k + 1]);
    assert all[..|all| - 1] == Sends(chats[..k]);
  }

  method SelectChats(all: seq<int>, banned: set<int>) returns (chats: seq<int>, excluded: nat)
    ensures chats == Reachable(all, banned) && |chats| + excluded == |all|
  {
    chats, excluded := [], 0;
    for k := 0 to |all|
      invariant chats == Reachable(all[..k], banned) && |chats| + excluded == k
    {
      assert all[..k + 1][..k] == all[..k];
      if all[k] > 0 && all[k] in banned {
        excluded := excluded + 1;
      } else {
        chats := chats + [all[k]];
      }
    }
    assert all[..|all|] == all;
  }

  /** Each known chat gets its sends, as often as it is known, unless it is the private chat of a banned user. */
  lemma {:induction false} ChatsReached(all: seq<int>, banned: set<int>, chat: int)
    ensures multiset(Reachable(all, banned))[chat] == if chat > 0 && chat in banned then 0 else multiset(all)[chat]
  {
    if all != [] {
      var front, last := all[..|all| - 1], all[|all| - 1];
      ChatsReached(front, banned, chat);
      assert all == front + [last];
    }
  }

  /** And in the order of the known chats: the i-th send goes to the known chat at[i]. */
  lemma {:induction false} ReachedInOrder(all: seq<int>, banned: set<int>) returns (at: seq<nat>)
    ensures |at| == |Reachable(all, banned)|
    ensures forall i | 0 <= i < |at| :: at[i] < |all| && Reachable(all, banned)[i] == all[at[i]]
    ensures forall i, j | 0 <= i < j < |at| :: at[i] < at[j]
  {
    at := [];
    if all != [] {
      at := ReachedInOrder(all[..|all| - 1], banned);
      if !IsExcluded(all[|all| - 1], banned) {
        at := at + [|all| - 1];
      }
    }
  }

  /** The sends of a broadcast started after a run are the next requests of the run. */
  lemma {:induction false} SendsAreIssued(steps: seq<Step>, chats: seq<int>, i: nat)
    requires i < |chats|
    ensures Issued(steps + Sends(chats), RequestId(|Requests(steps)| + 1 + i), Some(Text(chats[i], true)))
    ensures |Requests(steps + Sends(chats))| == |Requests(steps)| + |chats|
  {
    var front, last := chats[..|chats| - 1], chats[|chats| - 1];
    var all := steps + Sends(chats);
    assert all[..|all| - 1] == steps + Sends(front);
    if |chats| > 1 {
      SendsAreIssued(steps, front, if i < |front| then i else 0);
    } else {
      assert steps + Sends(front) == steps;
    }
  }

  // ---------------------------------------------------------------- one summary

  /** What the counters are after the client's effects on the sends of the broadcast. */
  ghost function ProgressAfter(chats: nat, excluded: nat, effects: seq<Effect>, batch: set<RequestId>): Progress {
    if effects == [] then Progress(chats, 0, [])
    else
      var before := ProgressAfter(chats, excluded, effects[..|effects| - 1], batch);
      var last := effects[|effects| - 1];
      if last.OnSent? && last.who in batch then Told(before, chats, excluded, last.id) else before
  }

  /** The sends of the broadcast that were settled, and those of them that were confirmed. */
  ghost function SettledOf(effects: seq<Effect>, batch: set<RequestId>): set<RequestId> {
    set e | e in effects && e.OnSent? && e.who in batch :: e.who
  }

  ghost function ConfirmedOf(effects: seq<Effect>, batch: set<RequestId>): set<RequestId> {
    set e | e in effects && e.OnSent? && e.who in batch && e.id > 0 :: e.who
  }

  lemma OneMore(effects: seq<Effect>, batch: set<RequestId>)
    requires effects != [] && AtMostOnce(effects)
    ensures var before, last := effects[..|effects| - 1], effects[|effects| - 1];
      && AtMostOnce(before) && last.who !in SettledOf(before, batch)
      && SettledOf(effects, batch)
         == SettledOf(before, batch) + (if last.OnSent? && last.who in batch then {last.who} else {})
      && ConfirmedOf(effects, batch)
         == ConfirmedOf(before, batch) + (if last.OnSent? && last.who in batch && last.id > 0 then {last.who} else {})
  {
    var before, last := effects[..|effects| - 1], effects[|effects| - 1];
    assert effects == before + [last];
    forall e | e in before ensures e.who != last.who {
      var i :| 0 <= i < |before| && before[i] == e;
      assert effects[i].who != effects[|effects| - 1].who;
    }
    assert forall i, j | 0 <= i < j < |before| :: before[i] == effects[i] && before[j] == effects[j];
    assert last in effects && forall e | e in before :: e in effects;
    assert forall e | e in effects :: e in before || e == last;
  }

  lemma SettledBounds(effects: seq<Effect>, batch: set<RequestId>)
    ensures ConfirmedOf(effects, batch) <= SettledOf(effects, batch) <= batch
    ensures |ConfirmedOf(effects, batch)| <= |SettledOf(effects, batch)| <= |batch|
  {
    SizeOfSubset(ConfirmedOf(effects, batch), SettledOf(effects, batch));
    SizeOfSubset(SettledOf(effects, batch), batch);
  }

  lemma {:induction false} SizeOfSubset(a: set<RequestId>, b: set<RequestId>)
    requires a <= b
    ensures |a| <= |b| && (|a| == |b| ==> a == b)
  {
    if a != {} {
      var x := Pick(a);
      SizeOfSubset(a - {x}, b - {x});
      assert a == a - {x} + {x} && b == b - {x} + {x};
    }
  }

  /** The counters fit the settled and the confirmed sends, and the summary is there when all are settled. */
  ghost predicate Fits(p: Progress, batch: set<RequestId>, excluded: nat, settled: set<RequestId>,
                       confirmed: set<RequestId>) {
    && p.pending == |batch| - |settled| && p.sent == |confirmed|
    && p.replies == if settled == batch then [Summary(p.sent, |batch|, excluded)] else []
  }

  lemma ToldFits(p: Progress, batch: set<RequestId>, excluded: nat, settled: set<RequestId>, confirmed: set<RequestId>,
                 who: RequestId, id: int)
    requires Fits(p, batch, excluded, settled, confirmed)
    requires confirmed <= settled <= batch && who in batch && who !in settled
    ensures Fits(Told(p, |batch|, excluded, id), batch, excluded,
                 settled + {who}, if id > 0 then confirmed + {who} else confirmed)
  {
    SizeOfSubset(settled + {who}, batch);
    assert settled != batch;
  }

  /** The counters count, and the summary comes with the last settled send, not before and not again. */
  lemma {:induction false} CountersCount(effects: seq<Effect>, batch: set<RequestId>, excluded: nat)
    requires AtMostOnce(effects) && batch != {}
    ensures Fits(ProgressAfter(|batch|, excluded, effects, batch), batch, excluded,
                 SettledOf(effects, batch), ConfirmedOf(effects, batch))
  {
    if effects != [] {
      var before, last := effects[..|effects| - 1], effects[|effects| - 1];
      OneMore(effects, batch);
      CountersCount(before, batch, excluded);
      SettledBounds(before, batch);
      if last.OnSent? && last.who in batch {
        ToldFits(ProgressAfter(|batch|, excluded, before, batch), batch, excluded,
                 SettledOf(before, batch), ConfirmedOf(before, batch), last.who, last.id);
      }
    } else {
      assert SettledOf(effects, batch) == {} && ConfirmedOf(effects, batch) == {};
    }
  }

  /** The sends of a broadcast: text sends the run has issued. */
  ghost predicate IsBatch(steps: seq<Step>, batch: set<RequestId>) {
    batch != {} && forall t | t in batch :: exists chat :: Issued(steps, t, Some(Text(chat, true)))
  }

  /** A settled send of the broadcast is one that is done. */
  lemma SettledIsDone(steps: seq<Step>, batch: set<RequestId>, t: RequestId)
    requires IsBatch(steps, batch) && t in batch
    ensures t in SettledOf(After(START, steps).effects, batch) <==> Done(After(START, steps), t)
  {
    var effects := After(START, steps).effects;
    if Done(After(START, steps), t) {
      var e :| e in effects && e.who == t;
      EffectsFitRequests(steps, e);
    }
  }

  /**
   There is at most one summary, and it is there exactly when every send of the broadcast is done; then confirmed,
   failed and excluded chats add up to the known ones.
   */
  ghost predicate AccountsFor(c: Client, batch: set<RequestId>, excluded: nat, known: nat) {
    var p := ProgressAfter(|batch|, excluded, c.effects, batch);
    var confirmed, settled := ConfirmedOf(c.effects, batch), SettledOf(c.effects, batch);
    && (p.replies == [] || p.replies == [Summary(|confirmed|, |batch|, excluded)])
    && (p.replies != [] <==> forall t | t in batch :: Done(c, t))
    && (p.replies != [] ==> |confirmed| + |settled - confirmed| + excluded == known)
  }

  /** For every order of answers, outcomes and deletions the summary accounts for the broadcast. */
  lemma OneSummary(steps: seq<Step>, batch: set<RequestId>, excluded: nat, known: nat)
    requires IsBatch(steps, batch) && |batch| + excluded == known
    ensures AccountsFor(After(START, steps), batch, excluded, known)
  {
    var c := After(START, steps);
    var confirmed, settled := ConfirmedOf(c.effects, batch), SettledOf(c.effects, batch);
    EffectsAtMostOnce(steps);
    CountersCount(c.effects, batch, excluded);
    SettledBounds(c.effects, batch);
    forall t | t in batch ensures t in settled <==> Done(c, t) { SettledIsDone(steps, batch, t); }
    assert settled == batch <==> forall t | t in batch :: t in settled;
    assert settled == confirmed + (settled - confirmed);
  }

  /**
   Without id clashes the summary has been sent exactly when every send was answered and had its outcome after that.
   */
  lemma SummaryIffCompleted(steps: seq<Step>, batch: set<RequestId>, excluded: nat)
    requires IsBatch(steps, batch) && NoClash(steps)
    ensures |ProgressAfter(|batch|, excluded, After(START, steps).effects, batch).replies| == 1
       <==> forall t | t in batch :: exists chat, j, k :: Completed(steps, t, chat, j, k)
  {
    forall t | t in batch
      ensures Done(After(START, steps), t) <==> exists chat, j, k :: Completed(steps, t, chat, j, k)
    {
      DoneIffSomeCompleted(steps, t);
    }
    OneSummary(steps, batch, excluded, |batch| + excluded);
  }

  lemma DoneIffSomeCompleted(steps: seq<Step>, t: RequestId)
    requires NoClash(steps) && exists chat :: Issued(steps, t, Some(Text(chat, true)))
    ensures Done(After(START, steps), t) <==> exists chat, j, k :: Completed(steps, t, chat, j, k)
  {
    var chat :| Issued(steps, t, Some(Text(chat, true)));
    DoneIffCompleted(steps, t, chat);
    if chat', j, k :| Completed(steps, t, chat', j, k) { CompletedIsDone(steps, t, chat', j, k); }
  }

  /**
   A chat counted as reached had its own message confirmed under a positive id, by the first outcome after the answer.
   */
  lemma ConfirmedMeans(steps: seq<Step>, batch: set<RequestId>, t: RequestId)
    requires t in ConfirmedOf(After(START, steps).effects, batch)
    ensures exists id, chat, j, k :: id > 0 && Reports(steps, t, id, chat, j, k)
  {
    var e :| e in After(START, steps).effects && e.OnSent? && e.who == t && e.id > 0;
    var chat, j, k := CallsReportOutcomes(steps, t, e.id);
  }

  // ---------------------------------------------------------------- a whole broadcast

  /** The ids of the next n requests. */
  function NextIds(first: nat, n: nat): (ids: set<RequestId>)
    ensures forall t | t in ids :: first <= t.n < first + n
  {
    if n == 0 then {} else NextIds(first, n - 1) + {RequestId(first + n - 1)}
  }

  lemma {:induction false} NextIdsSize(first: nat, n: nat)
    ensures |NextIds(first, n)| == n
  {
    if n > 0 { NextIdsSize(first, n - 1); }
  }

  lemma {:induction false} IssuedStays(steps: seq<Step>, more: seq<Step>, t: RequestId, callback: Option<Callback>)
    requires Issued(steps, t, callback)
    ensures Issued(steps + more, t, callback)
  {
    var run := steps + more;
    assert run[..|steps|] == steps && run[..|run|] == run;
    IssuedLater(run, |steps|, |run|, t, callback);
  }

  /**
   So it does for a broadcast started after any run and followed by any run, in terms of the known chats and the banned
   users; first is the id that ExecuteGNotify returns.
   */
  lemma BroadcastSummary(pre: seq<Step>, all: seq<int>, banned: set<int>, more: seq<Step>, chats: seq<int>, first: nat)
    requires chats == Reachable(all, banned) && chats != [] && first == After(START, pre).next
    ensures var batch := NextIds(first, |chats|);
      |batch| == |chats| && AccountsFor(After(START, pre + Sends(chats) + more), batch, |all| - |chats|, |all|)
  {
    RunAgrees(pre);
    BatchAccounts(pre, chats, |all|, more, NextIds(first, |chats|));
  }

  lemma BatchAccounts(pre: seq<Step>, chats: seq<int>, known: nat, more: seq<Step>, batch: set<RequestId>)
    requires chats != [] && |chats| <= known && batch == NextIds(|Requests(pre)| + 1, |chats|)
    ensures |batch| == |chats| && AccountsFor(After(START, pre + Sends(chats) + more), batch, known - |chats|, known)
  {
    NextIdsSize(|Requests(pre)| + 1, |chats|);
    BatchIsIssued(pre, chats, more, batch);
    OneSummary(pre + Sends(chats) + more, batch, known - |chats|, known);
  }

  lemma SendIsIssued(pre: seq<Step>, chats: seq<int>, more: seq<Step>, i: nat)
    requires i < |chats|
    ensures Issued(pre + Sends(chats) + more, RequestId(|Requests(pre)| + 1 + i), Some(Text(chats[i], true)))
  {
    SendsAreIssued(pre, chats, i);
    IssuedStays(pre + Sends(chats), more, RequestId(|Requests(pre)| + 1 + i), Some(Text(chats[i], true)));
  }

  lemma BatchMemberIsIssued(pre: seq<Step>, chats: seq<int>, more: seq<Step>, t: RequestId)
    requires |Requests(pre)| + 1 <= t.n < |Requests(pre)| + 1 + |chats|
    ensures exists chat :: Issued(pre + Sends(chats) + more, t, Some(Text(chat, true)))
  {
    var i := t.n - |Requests(pre)| - 1;
    SendIsIssued(pre, chats, more, i);
    assert t == RequestId(|Requests(pre)| + 1 + i);
  }

  lemma BatchIsIssued(pre: seq<Step>, chats: seq<int>, more: seq<Step>, batch: set<RequestId>)
    requires batch != {} && forall t | t in batch :: |Requests(pre)| + 1 <= t.n < |Requests(pre)| + 1 + |chats|
    ensures IsBatch(pre + Sends(chats) + more, batch)
  {
    forall t | t in batch ensures exists chat :: Issued(pre + Sends(chats) + more, t, Some(Text(chat, true))) {
      BatchMemberIsIssued(pre, chats, more, t);
    }
  }

  // ---------------------------------------------------------------- told from the events

  /** The sends whose story ended in a confirmed message. */
  ghost function Delivered(events: seq<U.Event>, batch: set<RequestId>): set<RequestId> {
    set t | t in batch && U.FateOf(events, t).Told? && U.FateOf(events, t).id > 0
  }

  lemma SettledIsTold(events: seq<U.Event>, batch: set<RequestId>, t: RequestId)
    requires t in batch
    ensures var effects := U.ClientAfter(events).effects;
      && (t in SettledOf(effects, batch) <==> U.FateOf(events, t).Told?)
      && (t in ConfirmedOf(effects, batch) <==> t in Delivered(events, batch))
  {
    var effects, f := U.ClientAfter(events).effects, U.FateOf(events, t);
    if f.Told? {
      U.ToldIffFate(events, t, f.id);
    }
    if t in SettledOf(effects, batch) {
      var e :| e in effects && e.OnSent? && e.who == t;
      U.ToldIffFate(events, t, e.id);
    }
    if t in ConfirmedOf(effects, batch) {
      var e :| e in effects && e.OnSent? && e.who == t && e.id > 0;
      U.ToldIffFate(events, t, e.id);
    }
  }

  /**
   In every run of requests, answers and updates: no summary until each send of the broadcast has been told its
   outcome, and then the one that counts the sends told a positive id.
   */
  lemma SummaryTellsFates(events: seq<U.Event>, batch: set<RequestId>, excluded: nat)
    requires batch != {}
    ensures ProgressAfter(|batch|, excluded, U.ClientAfter(events).effects, batch).replies
         == if forall t | t in batch :: U.FateOf(events, t).Told?
              then [Summary(|Delivered(events, batch)|, |batch|, excluded)]
            else []
  {
    var effects := U.ClientAfter(events).effects;
    EffectsAtMostOnce(U.AllSteps(events));
    CountersCount(effects, batch, excluded);
    SettledBounds(effects, batch);
    forall t | t in batch
      ensures t in SettledOf(effects, batch) <==> U.FateOf(events, t).Told?
      ensures t in ConfirmedOf(effects, batch) <==> t in Delivered(events, batch)
    {
      SettledIsTold(events, batch, t);
    }
    assert ConfirmedOf(effects, batch) == Delivered(events, batch);
    assert SettledOf(effects, batch) == batch <==> forall t | t in batch :: t in SettledOf(effects, batch);
  }
}
