/**
 The rate limit on commands and the short memory of chat messages in
 core/src/commands/moderation_commands.cpp.
 */
module Throttle {
  type UserId(==, !new)
  type ChatId(==, !new)

  // ---------------------------------------------------------------- one command per cooldown

  datatype Call = Call(user: UserId, time: int)

  /** Within the cooldown of the last accepted command. */
  predicate IsHot(last: map<UserId, int>, call: Call, cooldown: int) {
    call.user in last && call.time - last[call.user] < cooldown
  }

  class RateLimit {
    const cooldown: int
    var lastCommandAt: map<UserId, int>

    constructor (cooldown: int)
      ensures this.cooldown == cooldown && lastCommandAt == map[]
    {
      this.cooldown := cooldown;
      lastCommandAt := map[];
    }

    /** allowCommand; the clock is read by the caller. */
    method AllowCommand(sender: UserId, now: int) returns (ok: bool)
      modifies this`lastCommandAt
      ensures ok == !IsHot(old(lastCommandAt), Call(sender, now), cooldown)
      ensures lastCommandAt == Noted(old(lastCommandAt), Call(sender, now), cooldown)
    {
      if sender in lastCommandAt && now - lastCommandAt[sender] < cooldown {
        return false;
      }
      lastCommandAt := lastCommandAt[sender := now];
      return true;
    }
  }

  function Noted(last: map<UserId, int>, call: Call, cooldown: int): map<UserId, int> {
    if IsHot(last, call, cooldown) then last else last[call.user := call.time]
  }

  function LastAfter(calls: seq<Call>, cooldown: int): map<UserId, int> {
    if calls == [] then map[] else Noted(LastAfter(calls[..|calls| - 1], cooldown), calls[|calls| - 1], cooldown)
  }

  /** The times at which commands of the user were accepted. */
  function Accepted(calls: seq<Call>, cooldown: int, user: UserId): seq<int> {
    if calls == [] then []
    else
      var before, call := calls[..|calls| - 1], calls[|calls| - 1];
      Accepted(before, cooldown, user)
      + (if call.user == user && !IsHot(LastAfter(before, cooldown), call, cooldown) then [call.time] else [])
  }

  /** The table holds the last accepted time of every user. */
  lemma {:induction false} LastIsAccepted(calls: seq<Call>, cooldown: int, user: UserId)
    ensures var last, times := LastAfter(calls, cooldown), Accepted(calls, cooldown, user);
      (user in last <==> times != []) && (times != [] ==> last[user] == times[|times| - 1])
  {
    if calls != [] { LastIsAccepted(calls[..|calls| - 1], cooldown, user); }
  }

  /** Each time is at least the cooldown later than the one before it. */
  ghost predicate Spaced(times: seq<int>, cooldown: int) {
    forall i, j | 0 <= i < j < |times| && j == i + 1 :: times[j] - times[i] >= cooldown
  }

  /** Accepted commands of one user are a cooldown apart, whatever the clock does. */
  lemma {:induction false} AcceptedSpaced(calls: seq<Call>, cooldown: int, user: UserId)
    ensures Spaced(Accepted(calls, cooldown, user), cooldown)
  {
    if calls != [] {
      AcceptedSpaced(calls[..|calls| - 1], cooldown, user);
      LastIsAccepted(calls[..|calls| - 1], cooldown, user);
    }
  }

  /** How many of the times lie in an interval. */
  function Within(times: seq<int>, a: int, b: int): nat {
    if times == [] then 0
    else Within(times[..|times| - 1], a, b) + (if a <= times[|times| - 1] <= b then 1 else 0)
  }

  lemma TimesStep(c: int, k: int)
    ensures c * (k - 1) + c == c * k
  {}

  lemma {:induction false} SpacedBound(times: seq<int>, cooldown: int, a: int, b: int)
    requires cooldown >= 1 && Spaced(times, cooldown)
    ensures Within(times, a, b) > 0 ==> a <= b && cooldown * (Within(times, a, b) - 1) <= b - a
    decreases |times|
  {
    if times != [] {
      var n := |times| - 1;
      var before := times[..n];
      if a <= times[n] <= b {
        SpacedBound(before, cooldown, a, times[n] - cooldown);
        assert n > 0 ==> times[n] - times[n - 1] >= cooldown && before[n - 1] == times[n - 1];
        NoneBehind(before, cooldown, a, times[n] - cooldown, b);
        TimesStep(cooldown, Within(before, a, b));
      } else {
        SpacedBound(before, cooldown, a, b);
      }
    }
  }

  /** No time lies behind the last one. */
  lemma {:induction false} NoneBehind(times: seq<int>, cooldown: int, a: int, m: int, b: int)
    requires cooldown >= 1 && Spaced(times, cooldown) && m <= b && (times != [] ==> times[|times| - 1] <= m)
    ensures Within(times, a, b) == Within(times, a, m)
    decreases |times|
  {
    if times != [] {
      var n := |times| - 1;
      assert n > 0 ==> times[n] - times[n - 1] >= cooldown;
      NoneBehind(times[..n], cooldown, a, m, b);
    }
  }

  lemma AtMostQuotient(c: int, n: nat, d: int)
    requires c >= 1 && d >= 0 && (n > 0 ==> c * (n - 1) <= d)
    ensures n <= d / c + 1
  {
    if n > 0 { Divides(c, n - 1, d); }
  }

  /** In any interval [a, b] of any run, at most floor((b - a) / c) + 1 commands of one user are accepted. */
  lemma RateBound(calls: seq<Call>, cooldown: int, user: UserId, a: int, b: int)
    requires cooldown >= 1 && a <= b
    ensures Within(Accepted(calls, cooldown, user), a, b) <= (b - a) / cooldown + 1
  {
    var times := Accepted(calls, cooldown, user);
    AcceptedSpaced(calls, cooldown, user);
    SpacedBound(times, cooldown, a, b);
    AtMostQuotient(cooldown, Within(times, a, b), b - a);
  }

  lemma TimesGrows(c: int, x: int, y: int)
    requires c >= 0 && x <= y
    ensures c * x <= c * y
  {}

  lemma Divides(c: int, k: nat, d: int)
    requires c >= 1 && c * k <= d
    ensures k <= d / c
  {
    var q := d / c;
    assert c * q + d % c == d;
    TimesStep(c, q + 1);
    if q + 1 <= k { TimesGrows(c, q + 1, k); }
  }

  /**
   A rejected command is never due to somebody else: one of the same user was accepted less than a cooldown before.
   */
  lemma RejectedOnlyIfHot(calls: seq<Call>, cooldown: int, call: Call)
    ensures IsHot(LastAfter(calls, cooldown), call, cooldown)
       <==> var times := Accepted(calls, cooldown, call.user);
            times != [] && call.time - times[|times| - 1] < cooldown
  {
    LastIsAccepted(calls, cooldown, call.user);
  }

  function CallsOf(calls: seq<Call>, user: UserId): seq<Call> {
    if calls == [] then []
    else CallsOf(calls[..|calls| - 1], user) + (if calls[|calls| - 1].user == user then [calls[|calls| - 1]] else [])
  }

  /** Users do not affect each other: a user's accepted commands are those of a run with nobody else in it. */
  lemma {:induction false} UsersIndependent(calls: seq<Call>, cooldown: int, user: UserId)
    ensures Accepted(calls, cooldown, user) == Accepted(CallsOf(calls, user), cooldown, user)
  {
    if calls != [] {
      var before, call := calls[..|calls| - 1], calls[|calls| - 1];
      UsersIndependent(before, cooldown, user);
      if call.user == user {
        var own := CallsOf(calls, user);
        assert own[..|own| - 1] == CallsOf(before, user);
        LastIsAccepted(before, cooldown, user);
        LastIsAccepted(CallsOf(before, user), cooldown, user);
      } else {
        assert CallsOf(calls, user) == CallsOf(before, user);
      }
    }
  }

  // ---------------------------------------------------------------- the last messages of a chat

  const CONTEXT_MESSAGES := 10

  datatype Message = Message(chat: ChatId, sender: UserId, text: string)

  /** The last n elements. */
  function Last<T>(s: seq<T>, n: nat): seq<T> {
    if |s| <= n then s else s[|s| - n..]
  }

  class ChatMemory {
    var recentMessages: map<ChatId, seq<Message>>

    constructor ()
      ensures recentMessages == map[]
    {
      recentMessages := map[];
    }

    /** rememberChatMessage */
    method Remember(m: Message)
      modifies this
      ensures recentMessages
           == old(recentMessages)[m.chat := Last(Recent(old(recentMessages), m.chat) + [m], CONTEXT_MESSAGES)]
    {
      var messages := Recent(recentMessages, m.chat) + [m];
      ghost var all := messages;
      while |messages| > CONTEXT_MESSAGES
        invariant Last(messages, CONTEXT_MESSAGES) == Last(all, CONTEXT_MESSAGES)
      {
        messages := messages[1..];
      }
      recentMessages := recentMessages[m.chat := messages];
    }
  }

  function Recent(memory: map<ChatId, seq<Message>>, chat: ChatId): seq<Message> {
    if chat in memory then memory[chat] else []
  }

  function MemoryAfter(history: seq<Message>): map<ChatId, seq<Message>> {
    if history == [] then map[]
    else
      var memory, m := MemoryAfter(history[..|history| - 1]), history[|history| - 1];
      memory[m.chat := Last(Recent(memory, m.chat) + [m], CONTEXT_MESSAGES)]
  }

  function MessagesOf(history: seq<Message>, chat: ChatId): seq<Message> {
    if history == [] then []
    else
      var m := history[|history| - 1];
      MessagesOf(history[..|history| - 1], chat) + (if m.chat == chat then [m] else [])
  }

  lemma LastOfLast<T>(s: seq<T>, x: T, n: nat)
    ensures Last(Last(s, n) + [x], n) == Last(s + [x], n)
  {}

  /** What /ai sees of a chat is the last ten messages of its whole history. */
  lemma {:induction false} MemoryIsLastMessages(history: seq<Message>, chat: ChatId)
    ensures Recent(MemoryAfter(history), chat) == Last(MessagesOf(history, chat), CONTEXT_MESSAGES)
  {
    if history != [] {
      var before, m := history[..|history| - 1], history[|history| - 1];
      MemoryIsLastMessages(before, chat);
      if m.chat == chat { LastOfLast(MessagesOf(before, chat), m, CONTEXT_MESSAGES); }
    }
  }

  /** That is, it ends like the history, and holds ten messages or all there were. */
  lemma MemoryEndsLikeHistory(history: seq<Message>, chat: ChatId)
    ensures var own, seen := MessagesOf(history, chat), Recent(MemoryAfter(history), chat);
      |seen| == (if |own| < 10 then |own| else 10) && seen == own[|own| - |seen|..]
  {
    MemoryIsLastMessages(history, chat);
  }
}
