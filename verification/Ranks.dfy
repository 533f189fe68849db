/**
 Ranks of a chat's members: the lookups of core/src/database/db_manager.cpp and the
 /rank command of core/src/commands/moderation_commands.cpp, whose checks and write are
 separated by requests to Telegram and interleave with those of other commands.
 */
module Ranks {
  import opened Wrappers

  type ChatId(==, !new)
  type UserId(==, !new)

  datatype Member = Member(chat: ChatId, user: UserId)

  /** The tables devs and chat_ranks. */
  datatype Tables = Tables(devs: set<UserId>, ranks: map<Member, int>)

  /** 0 for developers, 1 for owners, 2 and 3 for admins, 4 for everybody else. */
  function Rank(t: Tables, m: Member): int {
    if m.user in t.devs then 0 else if m in t.ranks then t.ranks[m] else 4
  }

  predicate MayAsk(t: Tables, caller: Member, required: int) {
    Rank(t, caller) <= required
  }

  predicate MayModerate(t: Tables, caller: Member, target: Member) {
    Rank(t, target) > Rank(t, caller)
  }

  class Database {
    var devs: set<UserId>
    var chatRanks: map<Member, int>

    ghost function Contents(): Tables
      reads this
    {
      Tables(devs, chatRanks)
    }

    constructor ()
      ensures Contents() == Tables({}, map[])
    {
      devs, chatRanks := {}, map[];
    }

    method GetChatRank(m: Member) returns (rank: int)
      ensures rank == Rank(Contents(), m)
      ensures rank == if m.user in devs then 0 else if m in chatRanks then chatRanks[m] else 4
    {
      if m.user in devs {
        return 0;
      }
      if m !in chatRanks {
        return 4;
      }
      return chatRanks[m];
    }

    method SetChatRank(m: Member, rank: int)
      modifies this`chatRanks
      ensures Contents() == Tables(old(devs), old(chatRanks)[m := rank])
    {
      chatRanks := chatRanks[m := rank];
    }

    method RequireRank(caller: Member, required: int) returns (ok: bool)
      ensures ok == MayAsk(Contents(), caller, required)
    {
      var rank := GetChatRank(caller);
      return rank <= required;
    }

    method CanModerateTarget(caller: Member, target: Member) returns (ok: bool)
      ensures ok == MayModerate(Contents(), caller, target)
    {
      var callerRank := GetChatRank(caller);
      var targetRank := GetChatRank(target);
      return targetRank > callerRank;
    }

    /** The reply to getChatMember in applyRankChange. */
    method FinishRankChange(target: Member, newRank: int, isAdmin: bool) returns (done: bool)
      modifies this`chatRanks
      ensures done <==> WantsAdmin(newRank) == isAdmin
      ensures Contents() == if done then Tables(old(devs), old(chatRanks)[target := newRank]) else old(Contents())
    {
      if WantsAdmin(newRank) != isAdmin {
        return false;
      }
      SetChatRank(target, newRank);
      return true;
    }
  }

  /** Ranks 2 and 3 are for Telegram admins only, rank 4 for the others. */
  predicate WantsAdmin(rank: int) {
    rank == 2 || rank == 3
  }

  // ---------------------------------------------------------------- commands in flight

  /** A /rank command waiting for its target to be resolved, or for the target's admin status. */
  datatype Command =
    | Resolving(caller: Member, newRank: int)
    | Confirming(caller: Member, newRank: int, target: UserId)

  datatype State = State(tables: Tables, flying: multiset<Command>)

  datatype Step =
    | Ask(caller: Member, newRank: int)
    | Resolve(command: Command, target: UserId)
    | Confirm(command: Command, isAdmin: bool)
    | Fail(command: Command)

  function Target(c: Command): Member
    requires c.Confirming?
  {
    Member(c.caller.chat, c.target)
  }

  /** The rank change is written in this step. */
  predicate Writes(s: State, step: Step) {
    && step.Confirm? && step.command.Confirming? && step.command in s.flying
    && WantsAdmin(step.command.newRank) == step.isAdmin
  }

  function TablesAfter(s: State, step: Step): Tables {
    if Writes(s, step)
      then Tables(s.tables.devs, s.tables.ranks[Target(step.command) := step.command.newRank])
    else s.tables
  }

  function FlyingAfter(required: int, s: State, step: Step): multiset<Command> {
    match step
    case Ask(caller, newRank) =>
      if 2 <= newRank <= 4 && MayAsk(s.tables, caller, required)
        then s.flying + multiset{Resolving(caller, newRank)}
      else s.flying
    case Resolve(c, target) =>
      if !c.Resolving? || c !in s.flying then s.flying
      else if MayModerate(s.tables, c.caller, Member(c.caller.chat, target))
        then s.flying - multiset{c} + multiset{Confirming(c.caller, c.newRank, target)}
      else s.flying - multiset{c}
    case Confirm(c, _) => if c.Confirming? && c in s.flying then s.flying - multiset{c} else s.flying
    case Fail(c) => s.flying - multiset{c}
  }

  function Next(required: int, s: State, step: Step): State {
    State(TablesAfter(s, step), FlyingAfter(required, s, step))
  }

  function After(required: int, s: State, steps: seq<Step>): State {
    if steps == [] then s else Next(required, After(required, s, steps[..|steps| - 1]), steps[|steps| - 1])
  }

  // ---------------------------------------------------------------- safety of every interleaving

  /** Stored ranks are 1 to 4. */
  ghost predicate Stored(t: Tables) {
    forall m | m in t.ranks :: 1 <= t.ranks[m] <= 4
  }

  predicate IsOwner(t: Tables, m: Member) {
    Rank(t, m) == 1
  }

  /** No developer takes part. */
  ghost predicate WithoutDevs(t: Tables, steps: seq<Step>) {
    forall i | 0 <= i < |steps| && steps[i].Ask? :: steps[i].caller.user !in t.devs
  }

  /** What is in flight was asked for with rank 2, 3 or 4. */
  ghost predicate Grants(s: State) {
    Stored(s.tables) && forall c | c in s.flying :: 2 <= c.newRank <= 4
  }

  /** And by callers that may ask, none of them a developer, for targets that are no owners. */
  ghost predicate Guarded(required: int, s: State) {
    && (forall c | c in s.flying :: c.caller.user !in s.tables.devs)
    && (forall c | c in s.flying && c.Confirming? :: !IsOwner(s.tables, Target(c)) && c.target !in s.tables.devs)
    && (required <= 1 ==> forall c | c in s.flying :: IsOwner(s.tables, c.caller))
  }

  lemma NextGrants(required: int, s: State, step: Step)
    requires Grants(s)
    ensures Grants(Next(required, s, step)) && Next(required, s, step).tables.devs == s.tables.devs
  {}

  /** A step of anybody creates no owner. */
  lemma NoNewOwner(required: int, s: State, step: Step, m: Member)
    requires Grants(s) && IsOwner(Next(required, s, step).tables, m)
    ensures IsOwner(s.tables, m)
  {}

  /** Whoever takes part, developers included, in every interleaving the owners never become more. */
  lemma {:induction false} OwnersNeverGrow(required: int, start: Tables, steps: seq<Step>, m: Member)
    requires Stored(start)
    ensures Grants(After(required, State(start, multiset{}), steps))
    ensures After(required, State(start, multiset{}), steps).tables.devs == start.devs
    ensures IsOwner(After(required, State(start, multiset{}), steps).tables, m) ==> IsOwner(start, m)
  {
    if steps != [] {
      var before := steps[..|steps| - 1];
      var s := After(required, State(start, multiset{}), before);
      OwnersNeverGrow(required, start, before, m);
      NextGrants(required, s, steps[|steps| - 1]);
      if IsOwner(Next(required, s, steps[|steps| - 1]).tables, m) { NoNewOwner(required, s, steps[|steps| - 1], m); }
    }
  }

  /** A step without developers takes no owner away either. */
  lemma OwnerStays(required: int, s: State, step: Step, m: Member)
    requires Grants(s) && Guarded(required, s)
    ensures IsOwner(Next(required, s, step).tables, m) <==> IsOwner(s.tables, m)
  {
    if Writes(s, step) { assert !IsOwner(s.tables, Target(step.command)); }
  }

  lemma StaysGuarded(required: int, s: State, step: Step)
    requires Grants(s) && Guarded(required, s) && (step.Ask? ==> step.caller.user !in s.tables.devs)
    ensures Guarded(required, Next(required, s, step))
  {
    var r := Next(required, s, step);
    forall m: Member ensures IsOwner(r.tables, m) <==> IsOwner(s.tables, m) { OwnerStays(required, s, step, m); }
    forall c | c in r.flying
      ensures c.caller.user !in r.tables.devs && (required <= 1 ==> IsOwner(r.tables, c.caller))
      ensures c.Confirming? ==> !IsOwner(r.tables, Target(c)) && c.target !in r.tables.devs
    {
      CommandGuarded(required, s, step, c);
    }
  }

  /** A command in flight after a step was there before or passed its check in the step. */
  lemma CommandGuarded(required: int, s: State, step: Step, c: Command)
    requires Grants(s) && Guarded(required, s) && (step.Ask? ==> step.caller.user !in s.tables.devs)
    requires c in FlyingAfter(required, s, step)
    ensures c.caller.user !in s.tables.devs && (required <= 1 ==> IsOwner(s.tables, c.caller))
    ensures c.Confirming? ==> !IsOwner(s.tables, Target(c)) && c.target !in s.tables.devs
  {
    if c !in s.flying {
      match step
      case Ask(caller, newRank) =>
        assert c == Resolving(caller, newRank) && Rank(s.tables, caller) >= 1;
      case Resolve(was, target) =>
        assert c == Confirming(was.caller, was.newRank, target) && Rank(s.tables, was.caller) >= 1;
      case Confirm(_, _) =>
        assert false;
      case Fail(_) =>
        assert false;
    }
  }

  /**
   In every interleaving of /rank commands by callers that are no developers the owners stay exactly the same, although
   the write comes long after the checks.
   */
  lemma {:induction false} OwnersStay(required: int, start: Tables, steps: seq<Step>, m: Member)
    requires Stored(start) && WithoutDevs(start, steps)
    ensures Guarded(required, After(required, State(start, multiset{}), steps))
    ensures IsOwner(After(required, State(start, multiset{}), steps).tables, m) <==> IsOwner(start, m)
  {
    if steps != [] {
      var before := steps[..|steps| - 1];
      var s := After(required, State(start, multiset{}), before);
      assert WithoutDevs(start, before) by {
        forall i | 0 <= i < |before| && before[i].Ask?
          ensures before[i].caller.user !in start.devs
        {
          assert before[i] == steps[i];
        }
      }
      OwnersStay(required, start, before, m);
      OwnersNeverGrow(required, start, before, m);
      OwnerStays(required, s, steps[|steps| - 1], m);
      StaysGuarded(required, s, steps[|steps| - 1]);
    }
  }

  /**
   With a required rank of at most 1, whoever grants a rank is still an owner when it is written, and grants a lower
   one.
   */
  lemma GrantsAreLower(required: int, start: Tables, steps: seq<Step>, step: Step)
    requires Stored(start) && WithoutDevs(start, steps) && required <= 1
    requires Writes(After(required, State(start, multiset{}), steps), step)
    ensures var t := After(required, State(start, multiset{}), steps).tables;
      IsOwner(t, step.command.caller) && step.command.newRank > Rank(t, step.command.caller)
  {
    OwnersStay(required, start, steps, step.command.caller);
    OwnersNeverGrow(required, start, steps, step.command.caller);
  }

  // ---------------------------------------------------------------- which commands end in a write

  function StateAt(required: int, start: Tables, steps: seq<Step>, i: nat): State
    requires i <= |steps|
  {
    After(required, State(start, multiset{}), steps[..i])
  }

  /** At i the caller, whose rank then sufficed, asked for a rank of 2 to 4. */
  ghost predicate AskedAt(required: int, start: Tables, steps: seq<Step>, caller: Member, newRank: int, i: nat) {
    && i < |steps| && steps[i] == Ask(caller, newRank) && 2 <= newRank <= 4
    && Rank(StateAt(required, start, steps, i).tables, caller) <= required
  }

  /** And at j the target was known and ranked below the caller. */
  ghost predicate ResolvedAt(required: int, start: Tables, steps: seq<Step>, caller: Member, newRank: int,
                             target: UserId, i: nat, j: nat) {
    && AskedAt(required, start, steps, caller, newRank, i)
    && i < j < |steps| && steps[j] == Resolve(Resolving(caller, newRank), target)
    && var t := StateAt(required, start, steps, j).tables;
       Rank(t, Member(caller.chat, target)) > Rank(t, caller)
  }

  /** And at k the target turned out to be an admin for ranks 2 and 3, and none for rank 4. */
  ghost predicate GrantedAt(required: int, start: Tables, steps: seq<Step>, caller: Member, newRank: int,
                            target: UserId, i: nat, j: nat, k: nat) {
    && ResolvedAt(required, start, steps, caller, newRank, target, i, j)
    && j < k < |steps| && steps[k] == Confirm(Confirming(caller, newRank, target), newRank != 4)
  }

  /** What was so in a run is so in a longer one. */
  lemma AskedLater(required: int, start: Tables, steps: seq<Step>, caller: Member, newRank: int, i: nat)
    requires steps != [] && AskedAt(required, start, steps[..|steps| - 1], caller, newRank, i)
    ensures AskedAt(required, start, steps, caller, newRank, i)
  {
    assert steps[..|steps| - 1][..i] == steps[..i];
  }

  lemma ResolvedLater(required: int, start: Tables, steps: seq<Step>, caller: Member, newRank: int, target: UserId,
                      i: nat, j: nat)
    requires steps != [] && ResolvedAt(required, start, steps[..|steps| - 1], caller, newRank, target, i, j)
    ensures ResolvedAt(required, start, steps, caller, newRank, target, i, j)
  {
    AskedLater(required, start, steps, caller, newRank, i);
    assert steps[..|steps| - 1][..j] == steps[..j];
  }

  /** A command that a step adds. */
  lemma NewInFlight(required: int, s: State, step: Step, c: Command)
    requires c in FlyingAfter(required, s, step) && c !in s.flying
    ensures c.Resolving? ==>
      step == Ask(c.caller, c.newRank) && 2 <= c.newRank <= 4 && MayAsk(s.tables, c.caller, required)
    ensures c.Confirming? ==>
      && step == Resolve(Resolving(c.caller, c.newRank), c.target) && Resolving(c.caller, c.newRank) in s.flying
      && MayModerate(s.tables, c.caller, Target(c))
  {}

  /** A command in flight was asked for under the check of the moment. */
  lemma {:induction false} FlyingWasAsked(required: int, start: Tables, steps: seq<Step>, c: Command) returns (i: nat)
    requires c.Resolving? && c in After(required, State(start, multiset{}), steps).flying
    ensures AskedAt(required, start, steps, c.caller, c.newRank, i)
  {
    var before, step := steps[..|steps| - 1], steps[|steps| - 1];
    var s := After(required, State(start, multiset{}), before);
    if c in s.flying {
      i := FlyingWasAsked(required, start, before, c);
      AskedLater(required, start, steps, c.caller, c.newRank, i);
    } else {
      NewInFlight(required, s, step, c);
      i := |before|;
    }
  }

  /** And was then resolved under the check of that moment. */
  lemma {:induction false} FlyingWasResolved(required: int, start: Tables, steps: seq<Step>, c: Command)
    returns (i: nat, j: nat)
    requires c.Confirming? && c in After(required, State(start, multiset{}), steps).flying
    ensures ResolvedAt(required, start, steps, c.caller, c.newRank, c.target, i, j)
  {
    var before, step := steps[..|steps| - 1], steps[|steps| - 1];
    var s := After(required, State(start, multiset{}), before);
    if c in s.flying {
      i, j := FlyingWasResolved(required, start, before, c);
      ResolvedLater(required, start, steps, c.caller, c.newRank, c.target, i, j);
    } else {
      NewInFlight(required, s, step, c);
      i := FlyingWasAsked(required, start, before, Resolving(c.caller, c.newRank));
      AskedLater(required, start, steps, c.caller, c.newRank, i);
      j := |before|;
    }
  }

  /** A command of somebody in the same chat went through all three moments with this rank for m. */
  ghost predicate Granted(required: int, start: Tables, steps: seq<Step>, m: Member, rank: int) {
    exists user, i, j, k :: GrantedAt(required, start, steps, Member(m.chat, user), rank, m.user, i, j, k)
  }

  lemma GrantedLater(required: int, start: Tables, steps: seq<Step>, m: Member, rank: int)
    requires steps != [] && Granted(required, start, steps[..|steps| - 1], m, rank)
    ensures Granted(required, start, steps, m, rank)
  {
    var before := steps[..|steps| - 1];
    var user, i, j, k :| GrantedAt(required, start, before, Member(m.chat, user), rank, m.user, i, j, k);
    ResolvedLater(required, start, steps, Member(m.chat, user), rank, m.user, i, j);
    assert GrantedAt(required, start, steps, Member(m.chat, user), rank, m.user, i, j, k);
  }

  /** The step that writes. */
  lemma WriteIsGranted(required: int, start: Tables, steps: seq<Step>, step: Step)
    requires Writes(After(required, State(start, multiset{}), steps), step)
    ensures Granted(required, start, steps + [step], Target(step.command), step.command.newRank)
  {
    var c := step.command;
    var i, j := FlyingWasResolved(required, start, steps, c);
    var run := steps + [step];
    assert run[..|run| - 1] == steps;
    ResolvedLater(required, start, run, c.caller, c.newRank, c.target, i, j);
    assert c.caller == Member(c.caller.chat, c.caller.user);
    assert AskedAt(required, start, run, c.caller, c.newRank, i);
    assert GrantedAt(required, start, run, Member(c.caller.chat, c.caller.user), c.newRank, c.target, i, j, |steps|);
  }

  /** The rank the table holds, if any. */
  function StoredRank(t: Tables, m: Member): Option<int> {
    if m in t.ranks then Some(t.ranks[m]) else None
  }

  /** The rank is the one of the start, or was granted in the run. */
  ghost predicate Accounted(required: int, start: Tables, steps: seq<Step>, m: Member, rank: Option<int>) {
    rank == StoredRank(start, m) || (rank.Some? && Granted(required, start, steps, m, rank.value))
  }

  lemma RankAfterStep(required: int, s: State, step: Step, m: Member)
    ensures StoredRank(Next(required, s, step).tables, m)
         == if Writes(s, step) && Target(step.command) == m then Some(step.command.newRank) else StoredRank(s.tables, m)
  {}

  lemma AccountedStep(required: int, start: Tables, steps: seq<Step>, m: Member, s: State)
    requires steps != [] && s == After(required, State(start, multiset{}), steps[..|steps| - 1])
    requires Accounted(required, start, steps[..|steps| - 1], m, StoredRank(s.tables, m))
    ensures Accounted(required, start, steps, m, StoredRank(Next(required, s, steps[|steps| - 1]).tables, m))
  {
    var before, step := steps[..|steps| - 1], steps[|steps| - 1];
    assert before + [step] == steps;
    RankAfterStep(required, s, step, m);
    if Writes(s, step) && Target(step.command) == m {
      WriteIsGranted(required, start, before, step);
    } else if StoredRank(s.tables, m) != StoredRank(start, m) {
      GrantedLater(required, start, steps, m, StoredRank(s.tables, m).value);
    }
  }

  /**
   In every interleaving, a stored rank is the one of the start or was granted: asked for by a member of the same chat
   whose rank sufficed, for a target ranked below, and with the admin status that fits it.
   */
  lemma {:induction false} RanksAreGranted(required: int, start: Tables, steps: seq<Step>, m: Member)
    ensures Accounted(required, start, steps, m, StoredRank(After(required, State(start, multiset{}), steps).tables, m))
  {
    if steps != [] {
      var before := steps[..|steps| - 1];
      RanksAreGranted(required, start, before, m);
      AccountedStep(required, start, steps, m, After(required, State(start, multiset{}), before));
    }
  }

  /** No step answers this command. */
  ghost predicate Leaves(steps: seq<Step>, c: Command) {
    forall i | 0 <= i < |steps| :: !steps[i].Ask? ==> steps[i].command != c
  }

  lemma StepLeaves(required: int, s: State, step: Step, c: Command)
    requires c in s.flying && (!step.Ask? ==> step.command != c)
    ensures c in FlyingAfter(required, s, step)
  {}

  lemma {:induction false} StaysInFlight(required: int, s: State, steps: seq<Step>, c: Command)
    requires c in s.flying && Leaves(steps, c)
    ensures c in After(required, s, steps).flying
  {
    if steps != [] {
      var before := steps[..|steps| - 1];
      assert Leaves(before, c) by {
        forall i | 0 <= i < |before| ensures !before[i].Ask? ==> before[i].command != c {
          assert before[i] == steps[i];
        }
      }
      StaysInFlight(required, s, before, c);
      StepLeaves(required, After(required, s, before), steps[|steps| - 1], c);
    }
  }

  /**
   Conversely, whatever happens in between: a request by a caller of sufficient rank, for a target ranked below when it
   is resolved, is written at its answer exactly if the target is an admin for ranks 2 and 3, and none for rank 4.
   */
  lemma RequestIsWrittenIff(required: int, s: State, caller: Member, newRank: int, target: UserId, more: seq<Step>,
                            most: seq<Step>, isAdmin: bool)
    requires 2 <= newRank <= 4 && Rank(s.tables, caller) <= required
    requires Leaves(more, Resolving(caller, newRank)) && Leaves(most, Confirming(caller, newRank, target))
    ensures
      var s1 := After(required, Next(required, s, Ask(caller, newRank)), more);
      var s2 := After(required, Next(required, s1, Resolve(Resolving(caller, newRank), target)), most);
      var s3 := Next(required, s2, Confirm(Confirming(caller, newRank, target), isAdmin));
      Rank(s1.tables, Member(caller.chat, target)) > Rank(s1.tables, caller) ==>
        s3.tables == if (newRank == 4) != isAdmin
          then Tables(s2.tables.devs, s2.tables.ranks[Member(caller.chat, target) := newRank]) else s2.tables
  {
    var asked := Next(required, s, Ask(caller, newRank));
    StaysInFlight(required, asked, more, Resolving(caller, newRank));
    var s1 := After(required, asked, more);
    var resolved := Next(required, s1, Resolve(Resolving(caller, newRank), target));
    if Rank(s1.tables, Member(caller.chat, target)) > Rank(s1.tables, caller) {
      StaysInFlight(required, resolved, most, Confirming(caller, newRank, target));
    }
  }

  // ---------------------------------------------------------------- where these guarantees end

  /** Three steps of one /rank command. */
  function Change(caller: Member, newRank: int, target: UserId): seq<Step> {
    [Ask(caller, newRank), Resolve(Resolving(caller, newRank), target)]
  }

  lemma ChangeWaits(required: int, s: State, caller: Member, newRank: int, target: UserId)
    requires s.flying == multiset{} && 2 <= newRank <= 4
    requires MayAsk(s.tables, caller, required) && MayModerate(s.tables, caller, Member(caller.chat, target))
    ensures After(required, s, Change(caller, newRank, target))
         == State(s.tables, multiset{Confirming(caller, newRank, target)})
  {
    var steps := Change(caller, newRank, target);
    assert steps[..1] == [steps[0]] && [steps[0]][..0] == [];
    var asked := After(required, s, [steps[0]]);
    assert After(required, s, []) == s && asked == Next(required, s, steps[0]);
    assert s.flying + multiset{Resolving(caller, newRank)} == multiset{Resolving(caller, newRank)};
    assert asked == State(s.tables, multiset{Resolving(caller, newRank)});
  }

  /**
   Grants are strictly lower than the granter in all runs without developers exactly when the required rank is at most
   1.
   */
  lemma LowerIffRequiredAtMostOne(required: int, chat: ChatId, a: UserId, b: UserId)
    requires a != b
    ensures (forall start, steps, step |
               Stored(start) && WithoutDevs(start, steps)
                 && Writes(After(required, State(start, multiset{}), steps), step) ::
               step.command.newRank > Rank(After(required, State(start, multiset{}), steps).tables,
                 step.command.caller))
        <==> required <= 1
  {
    if required <= 1 {
      forall start, steps, step |
        Stored(start) && WithoutDevs(start, steps) && Writes(After(required, State(start, multiset{}), steps), step)
        ensures step.command.newRank > Rank(After(required, State(start, multiset{}), steps).tables,
             step.command.caller)
      {
        GrantsAreLower(required, start, steps, step);
      }
    } else {
      var caller := Member(chat, a);
      var start := Tables({}, map[caller := 2]);
      var steps := Change(caller, 2, b);
      ChangeWaits(required, State(start, multiset{}), caller, 2, b);
      var step := Confirm(Confirming(caller, 2, b), true);
      assert Stored(start) && WithoutDevs(start, steps);
      assert Writes(After(required, State(start, multiset{}), steps), step);
      assert !(step.command.newRank > Rank(After(required, State(start, multiset{}), steps).tables,
        step.command.caller));
    }
  }

  /** Nobody ranks below 0, so with a negative required rank nothing ever flies. */
  lemma {:induction false} NobodyMayAsk(required: int, start: Tables, steps: seq<Step>)
    requires Stored(start) && required < 0
    ensures After(required, State(start, multiset{}), steps) == State(start, multiset{})
  {
    if steps != [] { NobodyMayAsk(required, start, steps[..|steps| - 1]); }
  }

  /** One /rank command of a developer takes ownership away. */
  lemma DeveloperDemotesOwner(required: int, start: Tables, dev: UserId, owner: Member) returns (steps: seq<Step>)
    requires dev in start.devs && IsOwner(start, owner) && required >= 0
    ensures !IsOwner(After(required, State(start, multiset{}), steps).tables, owner)
  {
    var caller := Member(owner.chat, dev);
    var change := Change(caller, 4, owner.user);
    ChangeWaits(required, State(start, multiset{}), caller, 4, owner.user);
    steps := change + [Confirm(Confirming(caller, 4, owner.user), false)];
    assert steps[..|steps| - 1] == change;
    assert Rank(After(required, State(start, multiset{}), steps).tables, owner) == 4;
  }

  /** An owner stays one in every run of anybody's commands exactly when nobody may ask or there are no developers. */
  lemma OwnerIsSafeIff(required: int, start: Tables, owner: Member)
    requires Stored(start) && IsOwner(start, owner)
    ensures (forall steps :: IsOwner(After(required, State(start, multiset{}), steps).tables, owner))
       <==> required < 0 || start.devs == {}
  {
    if required < 0 || start.devs == {} {
      forall steps ensures IsOwner(After(required, State(start, multiset{}), steps).tables, owner) {
        if required < 0 { NobodyMayAsk(required, start, steps); } else { OwnersStay(required, start, steps, owner); }
      }
    } else {
      var steps := DeveloperDemotesOwner(required, start, Pick(start.devs), owner);
    }
  }
}
