/**
 The auto-moderator (auto-mod/src/automoderator.cpp): the keyword filter and the
 sliding-window spam check, with nested maps of timestamps that are trimmed per
 user on every message and pruned globally once in a while.
 */
module Moderator {
  import opened Bytes
  import opened Wrappers
  import opened Search
  import opened Utf8
  import KeywordFilter

  type ChatId(==, !new)
  type UserId(==, !new)
  type Stamps = seq<real>
  type Users = map<UserId, Stamps>
  type Trackers = map<ChatId, Users>

  /** The keyword list and the settings of AutomodConfig. */
  datatype Config = Config(patterns: seq<string>, window: real, limit: nat, muteSeconds: int, cap: nat)

  datatype Message = Message(chat: ChatId, user: UserId, text: Bytes, time: real)

  datatype ActionType = Allow | MuteTemporary | MutePermanent

  datatype Action = Action(kind: ActionType, seconds: int, deleteMessage: bool)

  /** spam_trackers_ and tracked_count_. */
  datatype Memory = Memory(trackers: Trackers, count: nat)

  const EMPTY := Memory(map[], 0)

  // ---------------------------------------------------------------- one call

  /** The timestamps later than the cutoff, in order: erase(remove_if(..)). */
  function Kept(stamps: Stamps, cutoff: real): (r: Stamps)
    ensures |r| <= |stamps| && forall t | t in r :: t > cutoff
  {
    if stamps == [] then []
    else (if stamps[0] > cutoff then [stamps[0]] else []) + Kept(stamps[1..], cutoff)
  }

  function UsersOf(trackers: Trackers, chat: ChatId): Users {
    if chat in trackers then trackers[chat] else map[]
  }

  function StampsOf(trackers: Trackers, chat: ChatId, user: UserId): Stamps {
    if user in UsersOf(trackers, chat) then UsersOf(trackers, chat)[user] else []
  }

  function PrunedUsers(users: Users, cutoff: real): Users {
    map u | u in users && Kept(users[u], cutoff) != [] :: Kept(users[u], cutoff)
  }

  function Pruned(trackers: Trackers, cutoff: real): Trackers {
    map c | c in trackers && PrunedUsers(trackers[c], cutoff) != map[] :: PrunedUsers(trackers[c], cutoff)
  }

  /** How many timestamps are held for the given users, and for the given chats. */
  ghost function UsersTotal(users: Users, keys: set<UserId>): nat {
    if keys == {} then 0
    else
      var u := Pick(keys);
      (if u in users then |users[u]| else 0) + UsersTotal(users, keys - {u})
  }

  ghost function ChatsTotal(trackers: Trackers, keys: set<ChatId>): nat {
    if keys == {} then 0
    else
      var c := Pick(keys);
      UsersTotal(UsersOf(trackers, c), UsersOf(trackers, c).Keys) + ChatsTotal(trackers, keys - {c})
  }

  ghost function Total(trackers: Trackers): nat {
    ChatsTotal(trackers, trackers.Keys)
  }

  ghost function PrunedIfFull(cfg: Config, m: Memory, now: real): Memory {
    if m.count <= cfg.cap then m
    else
      var trackers := Pruned(m.trackers, now - cfg.window);
      Memory(trackers, Total(trackers))
  }

  predicate IsFiltered(cfg: Config, text: Bytes) {
    KeywordFilter.FirstMatch(cfg.patterns, KeywordFilter.Fold(text)) != ""
  }

  /** The tracker of the sender, trimmed to the window, with the new timestamp. */
  function Trimmed(cfg: Config, trackers: Trackers, msg: Message): Stamps {
    Kept(StampsOf(trackers, msg.chat, msg.user), msg.time - cfg.window) + [msg.time]
  }

  function Tracked(cfg: Config, m: Memory, msg: Message): Memory {
    var users := UsersOf(m.trackers, msg.chat)[msg.user := Trimmed(cfg, m.trackers, msg)];
    Memory(m.trackers[msg.chat := users], m.count + 1)
  }

  function Verdict(cfg: Config, m: Memory, msg: Message): Action {
    if IsFiltered(cfg, msg.text) then Action(MutePermanent, 0, true)
    else if |Trimmed(cfg, m.trackers, msg)| <= cfg.limit then Action(Allow, 0, false)
    else Action(MuteTemporary, cfg.muteSeconds, false)
  }

  ghost function Next(cfg: Config, m: Memory, msg: Message): Memory {
    if IsFiltered(cfg, msg.text) then m
    else if |Trimmed(cfg, m.trackers, msg)| <= cfg.limit then Tracked(cfg, m, msg)
    else PrunedIfFull(cfg, Tracked(cfg, m, msg), msg.time)
  }

  /** Some phrase of the source occurs in the lowered code points of the text. */
  ghost predicate HoldsPhrase(text: Bytes) {
    var lower := KeywordFilter.LowerAll(Points(text));
    exists k :: 0 <= k < |KeywordFilter.PATTERNS| && Contains(lower, KeywordFilter.PointsOf(KeywordFilter.PATTERNS[k]))
  }

  /**
   With the phrases of the source, whatever is remembered: a well-formed message is muted for good and deleted exactly
   when its code points, lowered, contain a phrase, and such a message leaves no trace in the memory.
   */
  lemma MutedForGoodIff(cfg: Config, m: Memory, msg: Message)
    requires cfg.patterns == KeywordFilter.PATTERNS && WellFormed(msg.text)
    ensures Verdict(cfg, m, msg) == Action(MutePermanent, 0, true) <==> HoldsPhrase(msg.text)
    ensures Verdict(cfg, m, msg).deleteMessage <==> HoldsPhrase(msg.text)
    ensures HoldsPhrase(msg.text) ==> Next(cfg, m, msg) == m
  {
    KeywordFilter.FiltersIff(msg.text);
  }

  // ---------------------------------------------------------------- sums over maps

  lemma {:induction false} UsersTotalSplit(users: Users, keys: set<UserId>, u: UserId)
    requires u in keys
    ensures UsersTotal(users, keys) == (if u in users then |users[u]| else 0) + UsersTotal(users, keys - {u})
    decreases |keys|
  {
    var v := Pick(keys);
    if v != u {
      UsersTotalSplit(users, keys - {v}, u);
      UsersTotalSplit(users, keys - {u}, v);
      assert keys - {v} - {u} == keys - {u} - {v};
    }
  }

  lemma {:induction false} ChatsTotalSplit(trackers: Trackers, keys: set<ChatId>, c: ChatId)
    requires c in keys
    ensures ChatsTotal(trackers, keys)
         == UsersTotal(UsersOf(trackers, c), UsersOf(trackers, c).Keys) + ChatsTotal(trackers, keys - {c})
    decreases |keys|
  {
    var d := Pick(keys);
    if d != c {
      ChatsTotalSplit(trackers, keys - {d}, c);
      ChatsTotalSplit(trackers, keys - {c}, d);
      assert keys - {d} - {c} == keys - {c} - {d};
    }
  }

  lemma {:induction false} UsersTotalSame(users: Users, users': Users, keys: set<UserId>)
    requires forall u | u in keys :: (u in users <==> u in users') && (u in users ==> users[u] == users'[u])
    ensures UsersTotal(users, keys) == UsersTotal(users', keys)
    decreases |keys|
  {
    if keys != {} {
      var u := Pick(keys);
      UsersTotalSplit(users, keys, u);
      UsersTotalSplit(users', keys, u);
      UsersTotalSame(users, users', keys - {u});
    }
  }

  lemma {:induction false} ChatsTotalSame(trackers: Trackers, trackers': Trackers, keys: set<ChatId>)
    requires forall c | c in keys :: UsersOf(trackers, c) == UsersOf(trackers', c)
    ensures ChatsTotal(trackers, keys) == ChatsTotal(trackers', keys)
    decreases |keys|
  {
    if keys != {} {
      var c := Pick(keys);
      ChatsTotalSplit(trackers, keys, c);
      ChatsTotalSplit(trackers', keys, c);
      ChatsTotalSame(trackers, trackers', keys - {c});
    }
  }

  // ---------------------------------------------------------------- the object

  class AutoModerator {
    const cfg: Config
    var trackers: Trackers
    var trackedCount: nat

    ghost function Contents(): Memory
      reads this
    {
      Memory(trackers, trackedCount)
    }

    constructor (cfg: Config)
      ensures this.cfg == cfg && Contents() == EMPTY
    {
      this.cfg := cfg;
      trackers := map[];
      trackedCount := 0;
    }

    method ProcessMessage(msg: Message) returns (action: Action)
      modifies this
      ensures action == Verdict(cfg, old(Contents()), msg)
      ensures Contents() == Next(cfg, old(Contents()), msg)
    {
      var lower := KeywordFilter.ToLowerUtf8(msg.text);
      var matched := KeywordFilter.MatchFilter(cfg.patterns, lower);
      if matched != "" {
        return Action(MutePermanent, 0, true);
      }
      var cutoff := msg.time - cfg.window;
      var chatTracker := UsersOf(trackers, msg.chat);
      var userTracker := if msg.user in chatTracker then chatTracker[msg.user] else [];
      userTracker := Kept(userTracker, cutoff);
      userTracker := userTracker + [msg.time];
      trackers := trackers[msg.chat := chatTracker[msg.user := userTracker]];
      trackedCount := trackedCount + 1;
      if |userTracker| <= cfg.limit {
        action := Action(Allow, 0, false);
      } else {
        PruneLocked(msg.time);
        action := Action(MuteTemporary, cfg.muteSeconds, false);
      }
    }

    method PruneLocked(now: real)
      modifies this
      ensures Contents() == PrunedIfFull(cfg, old(Contents()), now)
    {
      if trackedCount <= cfg.cap {
        return;
      }
      trackers := PruneChats(trackers, now - cfg.window);
      trackedCount := CountAll(trackers);
    }
  }

  /** The outer loop of the prune. */
  method PruneChats(trackers: Trackers, cutoff: real) returns (r: Trackers)
    ensures r == Pruned(trackers, cutoff)
  {
    r := trackers;
    var chats := trackers.Keys;
    while chats != {}
      invariant PartlyPruned(trackers, r, chats, cutoff)
      decreases |chats|
    {
      HasElement(chats);
      var c :| c in chats;
      var users := PruneUsers(r[c], cutoff);
      PruneStep(trackers, r, chats, c, users, cutoff);
      r := WithChat(r, c, users);
      chats := chats - {c};
    }
    PrunedAtLast(trackers, r, cutoff);
  }

  /** The prune has dealt with every chat outside `chats`. */
  ghost predicate PartlyPruned(was: Trackers, trackers: Trackers, chats: set<ChatId>, cutoff: real) {
    && chats <= trackers.Keys <= was.Keys
    && (forall c | c in chats :: trackers[c] == was[c])
    && (forall c | c in was && c !in chats ::
          (c in trackers <==> PrunedUsers(was[c], cutoff) != map[])
          && (c in trackers ==> trackers[c] == PrunedUsers(was[c], cutoff)))
  }

  /** An emptied chat is erased. */
  function WithChat(trackers: Trackers, c: ChatId, users: Users): Trackers {
    if users == map[] then trackers - {c} else trackers[c := users]
  }

  lemma PruneStep(was: Trackers, trackers: Trackers, chats: set<ChatId>, c: ChatId, users: Users, cutoff: real)
    requires PartlyPruned(was, trackers, chats, cutoff) && c in chats && users == PrunedUsers(was[c], cutoff)
    ensures PartlyPruned(was, WithChat(trackers, c, users), chats - {c}, cutoff)
  {}

  lemma PrunedAtLast(was: Trackers, trackers: Trackers, cutoff: real)
    requires PartlyPruned(was, trackers, {}, cutoff)
    ensures trackers == Pruned(was, cutoff)
  {
    assert trackers.Keys == Pruned(was, cutoff).Keys;
  }

  /** The inner loop of the prune: one chat. */
  method PruneUsers(users: Users, cutoff: real) returns (r: Users)
    ensures r == PrunedUsers(users, cutoff)
  {
    r := users;
    var keys := users.Keys;
    while keys != {}
      invariant keys <= r.Keys <= users.Keys
      invariant forall u | u in keys :: r[u] == users[u]
      invariant forall u | u in users && u !in keys ::
                  (u in r <==> Kept(users[u], cutoff) != []) && (u in r ==> r[u] == Kept(users[u], cutoff))
      decreases |keys|
    {
      HasElement(keys);
      var u :| u in keys;
      var stamps := Kept(r[u], cutoff);
      r := if stamps == [] then r - {u} else r[u := stamps];
      keys := keys - {u};
    }
    assert r.Keys == PrunedUsers(users, cutoff).Keys;
    assert forall u | u in r :: r[u] == PrunedUsers(users, cutoff)[u];
  }

  /** The recount at the end of the prune. */
  method CountAll(trackers: Trackers) returns (n: nat)
    ensures n == Total(trackers)
  {
    n := 0;
    var chats := trackers.Keys;
    while chats != {}
      invariant chats <= trackers.Keys
      invariant n + ChatsTotal(trackers, chats) == Total(trackers)
      decreases |chats|
    {
      HasElement(chats);
      var c :| c in chats;
      ChatsTotalSplit(trackers, chats, c);
      var users := trackers[c].Keys;
      ghost var before := n;
      while users != {}
        invariant users <= trackers[c].Keys
        invariant n + UsersTotal(trackers[c], users) == before + UsersTotal(trackers[c], trackers[c].Keys)
        decreases |users|
      {
        HasElement(users);
        var u :| u in users;
        UsersTotalSplit(trackers[c], users, u);
        n := n + |trackers[c][u]|;
        users := users - {u};
      }
      chats := chats - {c};
    }
  }

  // ---------------------------------------------------------------- the window over the whole history

  /** The memory after a sequence of calls. */
  ghost function MemoryAfter(cfg: Config, msgs: seq<Message>): Memory {
    if msgs == [] then EMPTY
    else Next(cfg, MemoryAfter(cfg, msgs[..|msgs| - 1]), msgs[|msgs| - 1])
  }

  /** What a message adds to the history of one user beyond the cutoff. */
  function Added(cfg: Config, msg: Message, chat: ChatId, user: UserId, cutoff: real): Stamps {
    if msg.chat == chat && msg.user == user && !IsFiltered(cfg, msg.text) && msg.time > cutoff then [msg.time] else []
  }

  /** The unfiltered messages of one user in one chat later than the cutoff, in the full history. */
  function Recent(cfg: Config, msgs: seq<Message>, chat: ChatId, user: UserId, cutoff: real): Stamps {
    if msgs == [] then []
    else
      Recent(cfg, msgs[..|msgs| - 1], chat, user, cutoff) + Added(cfg, msgs[|msgs| - 1], chat, user, cutoff)
  }

  /** The decision by simple counting, with no memory to trim or prune. */
  function CountVerdict(cfg: Config, msgs: seq<Message>, msg: Message): Action {
    if IsFiltered(cfg, msg.text) then Action(MutePermanent, 0, true)
    else if |Recent(cfg, msgs, msg.chat, msg.user, msg.time - cfg.window)| + 1 > cfg.limit
      then Action(MuteTemporary, cfg.muteSeconds, false)
    else Action(Allow, 0, false)
  }

  /** No message of the history is later than t. */
  ghost predicate NoneLater(msgs: seq<Message>, t: real) {
    forall i | 0 <= i < |msgs| :: msgs[i].time <= t
  }

  lemma {:induction false} KeptAppend(a: Stamps, b: Stamps, cutoff: real)
    ensures Kept(a + b, cutoff) == Kept(a, cutoff) + Kept(b, cutoff)
  {
    if a == [] {
      assert a + b == b;
    } else {
      assert (a + b)[1..] == a[1..] + b;
      KeptAppend(a[1..], b, cutoff);
    }
  }

  lemma {:induction false} KeptTwice(a: Stamps, early: real, late: real)
    requires early <= late
    ensures Kept(Kept(a, early), late) == Kept(a, late)
  {
    if a != [] {
      KeptTwice(a[1..], early, late);
      if a[0] > early {
        assert Kept(a, early)[1..] == Kept(a[1..], early);
      } else {
        assert Kept(a, early) == Kept(a[1..], early);
      }
    }
  }

  /** Pruning trims every user to the cutoff and forgets nobody else. */
  lemma StampsOfPruned(trackers: Trackers, cutoff: real, chat: ChatId, user: UserId)
    ensures StampsOf(Pruned(trackers, cutoff), chat, user) == Kept(StampsOf(trackers, chat, user), cutoff)
  {
    if chat in trackers {
      var users := PrunedUsers(trackers[chat], cutoff);
      if user in trackers[chat] && Kept(trackers[chat][user], cutoff) != [] { assert user in users; }
    }
  }

  lemma StampsAfterTracking(cfg: Config, m: Memory, msg: Message, chat: ChatId, user: UserId, cutoff: real)
    requires cutoff >= msg.time - cfg.window && !IsFiltered(cfg, msg.text)
    ensures Kept(StampsOf(Tracked(cfg, m, msg).trackers, chat, user), cutoff)
         == Kept(StampsOf(m.trackers, chat, user), cutoff) + Added(cfg, msg, chat, user, cutoff)
  {
    var before := StampsOf(m.trackers, chat, user);
    if chat == msg.chat && user == msg.user {
      KeptAppend(Kept(before, msg.time - cfg.window), [msg.time], cutoff);
      KeptTwice(before, msg.time - cfg.window, cutoff);
    } else {
      assert StampsOf(Tracked(cfg, m, msg).trackers, chat, user) == before;
    }
  }

  lemma StampsAfterPrune(cfg: Config, m: Memory, now: real, chat: ChatId, user: UserId, cutoff: real)
    requires cutoff >= now - cfg.window
    ensures Kept(StampsOf(PrunedIfFull(cfg, m, now).trackers, chat, user), cutoff)
         == Kept(StampsOf(m.trackers, chat, user), cutoff)
  {
    StampsOfPruned(m.trackers, now - cfg.window, chat, user);
    KeptTwice(StampsOf(m.trackers, chat, user), now - cfg.window, cutoff);
  }

  /** What a call leaves for one user, seen beyond the horizon of its own message. */
  lemma StampsAfterCall(cfg: Config, m: Memory, msg: Message, chat: ChatId, user: UserId, cutoff: real)
    requires cutoff >= msg.time - cfg.window
    ensures Kept(StampsOf(Next(cfg, m, msg).trackers, chat, user), cutoff)
         == Kept(StampsOf(m.trackers, chat, user), cutoff) + Added(cfg, msg, chat, user, cutoff)
  {
    if !IsFiltered(cfg, msg.text) {
      StampsAfterTracking(cfg, m, msg, chat, user, cutoff);
      StampsAfterPrune(cfg, Tracked(cfg, m, msg), msg.time, chat, user, cutoff);
    }
  }

  /** Beyond the horizons of all messages, in whatever order they came, the memory holds exactly the history. */
  lemma {:induction false} MemoryRemembers(cfg: Config, msgs: seq<Message>, chat: ChatId, user: UserId, cutoff: real)
    requires NoneLater(msgs, cutoff + cfg.window)
    ensures Kept(StampsOf(MemoryAfter(cfg, msgs).trackers, chat, user), cutoff) == Recent(cfg, msgs, chat, user, cutoff)
  {
    if msgs != [] {
      var before, msg := msgs[..|msgs| - 1], msgs[|msgs| - 1];
      MemoryRemembers(cfg, before, chat, user, cutoff);
      StampsAfterCall(cfg, MemoryAfter(cfg, before), msg, chat, user, cutoff);
    }
  }

  /**
   Unless a later message came first, the verdict is the one of simple counting over the full history, in whatever
   order that came: trimming, pruning and the cap never change it.
   */
  lemma VerdictIsCount(cfg: Config, msgs: seq<Message>, msg: Message)
    requires NoneLater(msgs, msg.time)
    ensures Verdict(cfg, MemoryAfter(cfg, msgs), msg) == CountVerdict(cfg, msgs, msg)
  {
    MemoryRemembers(cfg, msgs, msg.chat, msg.user, msg.time - cfg.window);
  }

  /** Two moderators that differ only in the cap decide alike. */
  lemma CapChangesNothing(cfg: Config, other: Config, msgs: seq<Message>, msg: Message)
    requires NoneLater(msgs, msg.time) && other == cfg.(cap := other.cap)
    ensures Verdict(cfg, MemoryAfter(cfg, msgs), msg) == Verdict(other, MemoryAfter(other, msgs), msg)
  {
    VerdictIsCount(cfg, msgs, msg);
    VerdictIsCount(other, msgs, msg);
    CountIgnoresCap(cfg, other, msgs, msg);
  }

  lemma CountIgnoresCap(cfg: Config, other: Config, msgs: seq<Message>, msg: Message)
    requires other == cfg.(cap := other.cap)
    ensures CountVerdict(cfg, msgs, msg) == CountVerdict(other, msgs, msg)
  {
    RecentIgnoresCap(cfg, other, msgs, msg.chat, msg.user, msg.time - cfg.window);
  }

  lemma {:induction false} RecentIgnoresCap(cfg: Config, other: Config, msgs: seq<Message>, chat: ChatId, user: UserId,
                                            cutoff: real)
    requires cfg.patterns == other.patterns
    ensures Recent(cfg, msgs, chat, user, cutoff) == Recent(other, msgs, chat, user, cutoff)
  {
    if msgs != [] { RecentIgnoresCap(cfg, other, msgs[..|msgs| - 1], chat, user, cutoff); }
  }

  /** With few stamps, a message that passes the filter is just recorded. */
  lemma JustTracked(cfg: Config, m: Memory, msg: Message)
    requires !IsFiltered(cfg, msg.text) && |Trimmed(cfg, m.trackers, msg)| <= cfg.limit
    ensures StampsOf(Next(cfg, m, msg).trackers, msg.chat, msg.user) == Trimmed(cfg, m.trackers, msg)
  {}

  /** The empty text passes the filter of the source, so the messages of the runs below can reach the moderator. */
  lemma EmptyTextPasses(cfg: Config)
    requires cfg.patterns == KeywordFilter.PATTERNS
    ensures !IsFiltered(cfg, [])
  {
    KeywordFilter.EmptyTextPasses();
  }

  /**
   A message from the past still needs what a later one erased: at time t below h, the message at h - window is missed.
   */
  lemma OrderIsNeeded(cfg: Config, chat: ChatId, user: UserId, h: real, t: real)
    requires !IsFiltered(cfg, []) && cfg.limit == 2 && cfg.window > 0.0 && t < h
    ensures var msgs := [Message(chat, user, [], h - cfg.window), Message(chat, user, [], h)];
      var msg := Message(chat, user, [], t);
      Verdict(cfg, MemoryAfter(cfg, msgs), msg) != CountVerdict(cfg, msgs, msg)
  {
    var first, second := Message(chat, user, [], h - cfg.window), Message(chat, user, [], h);
    var msg := Message(chat, user, [], t);
    var msgs, cutoff := [first, second], t - cfg.window;
    assert msgs[..1] == [first] && [first][..0] == [];
    var one := MemoryAfter(cfg, [first]);
    assert MemoryAfter(cfg, []) == EMPTY;
    assert Trimmed(cfg, EMPTY.trackers, first) == [h - cfg.window];
    JustTracked(cfg, EMPTY, first);
    assert one == Next(cfg, EMPTY, first);
    KeptOne(h - cfg.window, h - cfg.window);
    JustTracked(cfg, one, second);
    assert MemoryAfter(cfg, msgs) == Next(cfg, one, second);
    KeptOne(h, cutoff);
    assert |Trimmed(cfg, MemoryAfter(cfg, msgs).trackers, msg)| == 2;
    assert Recent(cfg, [first], chat, user, cutoff) == [h - cfg.window];
    assert Recent(cfg, msgs, chat, user, cutoff) == [h - cfg.window, h];
  }

  lemma KeptOne(stamp: real, cutoff: real)
    ensures Kept([stamp], cutoff) == if stamp > cutoff then [stamp] else []
  {
    assert [stamp][1..] == [];
  }

  /** The settings have this phrase list and window. */
  predicate HasSettings(cfg: Config, patterns: seq<string>, window: real) {
    cfg.patterns == patterns && cfg.window == window
  }

  /** At time t every history up to h gives the counted verdict, for all settings with this phrase list and window. */
  ghost predicate AlwaysCounted(patterns: seq<string>, window: real, h: real, t: real) {
    forall cfg: Config, msgs: seq<Message>, msg: Message |
      HasSettings(cfg, patterns, window) && NoneLater(msgs, h) && msg.time == t ::
      Verdict(cfg, MemoryAfter(cfg, msgs), msg) == CountVerdict(cfg, msgs, msg)
  }

  lemma NotLaterIsCounted(patterns: seq<string>, window: real, h: real, t: real)
    requires h <= t
    ensures AlwaysCounted(patterns, window, h, t)
  {
    forall cfg: Config, msgs: seq<Message>, msg: Message |
      HasSettings(cfg, patterns, window) && NoneLater(msgs, h) && msg.time == t
      ensures Verdict(cfg, MemoryAfter(cfg, msgs), msg) == CountVerdict(cfg, msgs, msg)
    {
      VerdictIsCount(cfg, msgs, msg);
    }
  }

  lemma LaterIsNotCounted(cfg: Config, chat: ChatId, user: UserId, h: real, t: real)
    requires !IsFiltered(cfg, []) && cfg.limit == 2 && cfg.window > 0.0 && t < h
    ensures !AlwaysCounted(cfg.patterns, cfg.window, h, t)
  {
    OrderIsNeeded(cfg, chat, user, h, t);
    var msgs := [Message(chat, user, [], h - cfg.window), Message(chat, user, [], h)];
    Miscounts(cfg, msgs, Message(chat, user, [], t), h);
  }

  lemma Miscounts(cfg: Config, msgs: seq<Message>, msg: Message, h: real)
    requires NoneLater(msgs, h) && Verdict(cfg, MemoryAfter(cfg, msgs), msg) != CountVerdict(cfg, msgs, msg)
    ensures !AlwaysCounted(cfg.patterns, cfg.window, h, msg.time)
  {
    assert HasSettings(cfg, cfg.patterns, cfg.window);
  }

  /**
   With the phrases of the source, at time t all histories up to h give the counted verdict, for all settings with this
   window, exactly when h is not later.
   */
  lemma CountedIffNoneLater(chat: ChatId, user: UserId, window: real, h: real, t: real)
    requires window > 0.0
    ensures AlwaysCounted(KeywordFilter.PATTERNS, window, h, t) <==> h <= t
  {
    if h <= t {
      NotLaterIsCounted(KeywordFilter.PATTERNS, window, h, t);
    } else {
      var cfg := Config(KeywordFilter.PATTERNS, window, 2, 60, 4096);
      EmptyTextPasses(cfg);
      LaterIsNotCounted(cfg, chat, user, h, t);
    }
  }

  // ---------------------------------------------------------------- the counter

  /** Writing one user's tracker changes the total by the change of that tracker. */
  lemma TotalAfterWrite(trackers: Trackers, chat: ChatId, user: UserId, stamps: Stamps)
    ensures var users := UsersOf(trackers, chat)[user := stamps];
      Total(trackers[chat := users]) + |StampsOf(trackers, chat, user)| == Total(trackers) + |stamps|
  {
    var was := UsersOf(trackers, chat);
    var users := was[user := stamps];
    var trackers' := trackers[chat := users];
    UsersTotalSplit(users, users.Keys, user);
    UsersTotalSame(was, users, users.Keys - {user});
    if user in was {
      UsersTotalSplit(was, was.Keys, user);
      assert users.Keys == was.Keys;
    } else {
      assert users.Keys - {user} == was.Keys;
    }
    ChatsTotalSplit(trackers', trackers'.Keys, chat);
    ChatsTotalSame(trackers, trackers', trackers'.Keys - {chat});
    if chat in trackers {
      ChatsTotalSplit(trackers, trackers.Keys, chat);
      assert trackers'.Keys == trackers.Keys;
    } else {
      assert trackers'.Keys - {chat} == trackers.Keys;
      assert UsersTotal(was, was.Keys) == 0;
    }
  }

  /** How many timestamps the per-user erase of a call drops. */
  function Dropped(cfg: Config, m: Memory, msg: Message): nat {
    |StampsOf(m.trackers, msg.chat, msg.user)| - |Kept(StampsOf(m.trackers, msg.chat, msg.user), msg.time - cfg.window)|
  }

  /** The call runs a prune: it finds too many messages, and the counter is above the cap. */
  predicate Prunes(cfg: Config, m: Memory, msg: Message) {
    !IsFiltered(cfg, msg.text) && |Trimmed(cfg, m.trackers, msg)| > cfg.limit && m.count + 1 > cfg.cap
  }

  /** The timestamps dropped by per-user erases since the last prune that ran. */
  ghost function DroppedSincePrune(cfg: Config, msgs: seq<Message>): nat {
    if msgs == [] then 0
    else
      var before, msg := msgs[..|msgs| - 1], msgs[|msgs| - 1];
      var m := MemoryAfter(cfg, before);
      if Prunes(cfg, m, msg) then 0
      else DroppedSincePrune(cfg, before) + (if IsFiltered(cfg, msg.text) then 0 else Dropped(cfg, m, msg))
  }

  /** One call: the counter and the total differ by what was dropped. */
  lemma CountAfterCall(cfg: Config, m: Memory, msg: Message, d: nat)
    requires m.count == Total(m.trackers) + d
    ensures var r := Next(cfg, m, msg);
      r.count == Total(r.trackers)
        + if Prunes(cfg, m, msg) then 0 else d + (if IsFiltered(cfg, msg.text) then 0 else Dropped(cfg, m, msg))
  {
    TotalAfterWrite(m.trackers, msg.chat, msg.user, Trimmed(cfg, m.trackers, msg));
  }

  /**
   In every reachable state, for any order of calls, the counter is the number of timestamps held plus those dropped by
   per-user erases since the last prune that ran; so it is exact if and only if none was dropped.
   */
  lemma {:induction false} CountIsTotalAndDropped(cfg: Config, msgs: seq<Message>)
    ensures var m := MemoryAfter(cfg, msgs);
      && m.count == Total(m.trackers) + DroppedSincePrune(cfg, msgs)
      && (m.count == Total(m.trackers) <==> DroppedSincePrune(cfg, msgs) == 0)
  {
    if msgs != [] {
      var before := msgs[..|msgs| - 1];
      CountIsTotalAndDropped(cfg, before);
      CountAfterCall(cfg, MemoryAfter(cfg, before), msgs[|msgs| - 1], DroppedSincePrune(cfg, before));
    }
  }

  /** So it is always an upper bound. */
  lemma CountIsUpperBound(cfg: Config, msgs: seq<Message>)
    ensures MemoryAfter(cfg, msgs).count >= Total(MemoryAfter(cfg, msgs).trackers)
  {
    CountIsTotalAndDropped(cfg, msgs);
  }

  /** Two messages of one user a window apart: one timestamp is held and two are counted. */
  lemma CountCanExceed(cfg: Config, chat: ChatId, user: UserId)
    requires !IsFiltered(cfg, []) && cfg.limit >= 1 && cfg.window > 0.0
    ensures var msgs := [Message(chat, user, [], 0.0), Message(chat, user, [], cfg.window)];
      var m := MemoryAfter(cfg, msgs);
      m.count == 2 && Total(m.trackers) == 1
  {
    var first, second := Message(chat, user, [], 0.0), Message(chat, user, [], cfg.window);
    var msgs := [first, second];
    assert msgs[..1] == [first] && [first][..0] == [] && MemoryAfter(cfg, []) == EMPTY;
    var one := MemoryAfter(cfg, [first]);
    assert Trimmed(cfg, EMPTY.trackers, first) == [0.0];
    JustTracked(cfg, EMPTY, first);
    assert one == Next(cfg, EMPTY, first) && DroppedSincePrune(cfg, []) == 0 && DroppedSincePrune(cfg, [first]) == 0;
    KeptOne(0.0, 0.0);
    assert Dropped(cfg, one, second) == 1;
    assert DroppedSincePrune(cfg, msgs) == 1;
    CountIsTotalAndDropped(cfg, msgs);
  }

  /** Right after a prune that ran it is exact, nothing empty is kept, and every timestamp is inside the window. */
  lemma PruneIsExact(cfg: Config, m: Memory, now: real)
    requires m.count > cfg.cap
    ensures var r := PrunedIfFull(cfg, m, now);
      && r.count == Total(r.trackers)
      && (forall c | c in r.trackers :: r.trackers[c] != map[])
      && (forall c, u | c in r.trackers && u in r.trackers[c] :: r.trackers[c][u] != [])
      && (forall c, u, t | c in r.trackers && u in r.trackers[c] && t in r.trackers[c][u] :: t > now - cfg.window)
  {}

  /**
   A message that passes the filter prunes exactly when it is muted with the counter beyond the cap.  Then every
   timestamp left, of anybody, is inside the window; else nobody else's tracker is touched and one more is counted.
   */
  lemma PrunesIffMutedBeyondCap(cfg: Config, m: Memory, msg: Message)
    requires !IsFiltered(cfg, msg.text)
    ensures var r := Next(cfg, m, msg);
      if Verdict(cfg, m, msg).kind.MuteTemporary? && m.count + 1 > cfg.cap then
        && r.count == Total(r.trackers)
        && forall c, u, t | c in r.trackers && u in r.trackers[c] && t in r.trackers[c][u] :: t > msg.time - cfg.window
      else
        && r.count == m.count + 1
        && forall c, u | c != msg.chat || u != msg.user :: StampsOf(r.trackers, c, u) == StampsOf(m.trackers, c, u)
  {
    PruneIsExactWhenFull(cfg, Tracked(cfg, m, msg), msg.time);
  }

  lemma PruneIsExactWhenFull(cfg: Config, m: Memory, now: real)
    ensures m.count > cfg.cap ==>
      var r := PrunedIfFull(cfg, m, now);
      && r.count == Total(r.trackers)
      && forall c, u, t | c in r.trackers && u in r.trackers[c] && t in r.trackers[c][u] :: t > now - cfg.window
    ensures m.count <= cfg.cap ==> PrunedIfFull(cfg, m, now) == m
  {
    if m.count > cfg.cap { PruneIsExact(cfg, m, now); }
  }
}
