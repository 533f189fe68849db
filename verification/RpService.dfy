/**
 The RP commands of a chat (rp-service/src/service/rp_service.cpp): one-time
 seeding with defaults, adding, removing, editing, listing and matching.  Redis
 is a map per chat and a set of seeded chats; calls succeed and do not overlap.
 */
module RpService {
  import opened Bytes
  import opened Wrappers
  import opened Tokenizer
  import opened Triggers
  import opened Substitution
  import opened Numbers
  import Utf8

  type ChatId(==, !new)
  type Commands = map<Bytes, Bytes>

  datatype Store = Store(commands: map<ChatId, Commands>, seeded: set<ChatId>)

  datatype MatchResult = NoMatch | Matched(trigger: Bytes, response: Bytes)

  const MAX_TRIGGER := 64
  const MAX_RESPONSE := 2000

  // ---------------------------------------------------------------- pieces

  predicate IsValidTrigger(t: Bytes) {
    t != [] && |t| <= MAX_TRIGGER && NoSpace(t)
  }

  predicate IsValidResponse(r: Bytes) {
    r != [] && |r| <= MAX_RESPONSE
  }

  function CommandsOf(s: Store, chat: ChatId): Commands {
    if chat in s.commands then s.commands[chat] else map[]
  }

  function WithCommands(s: Store, chat: ChatId, commands: Commands): Store {
    Store(s.commands[chat := commands], s.seeded)
  }

  /** Seeding adds the defaults that are missing; what is there stays. */
  function Seeded(defaults: Commands, s: Store, chat: ChatId): Store {
    if chat in s.seeded || defaults == map[] then s
    else Store(s.commands[chat := defaults + CommandsOf(s, chat)], s.seeded + {chat})
  }

  /** The author's and the target's mention; ids stand in for missing names. */
  function Author(user: int, mention1: Bytes): Bytes {
    if mention1 == [] then Decimal(user) else mention1
  }

  function Target(replyTo: int, mention2: Bytes): Bytes {
    if mention2 == [] && replyTo > 0 then Decimal(replyTo) else mention2
  }

  // ---------------------------------------------------------------- operations on the store

  datatype Op =
    | Match(chat: ChatId, user: int, text: Bytes, replyTo: int, mention1: Bytes, mention2: Bytes)
    | Add(chat: ChatId, trigger: Bytes, response: Bytes)
    | Remove(chat: ChatId, trigger: Bytes)
    | Edit(chat: ChatId, trigger: Bytes, response: Bytes)
    | List(chat: ChatId)

  predicate IsAccepted(op: Op)
    requires op.Add? || op.Edit?
  {
    IsValidTrigger(Normal(op.trigger)) && IsValidResponse(TrimOf(op.response))
  }

  /** The operation reports success. */
  predicate Succeeds(defaults: Commands, s: Store, op: Op)
    requires op.Add? || op.Edit? || op.Remove?
  {
    match op
    case Add(chat, trigger, _) => IsAccepted(op) && Normal(trigger) !in CommandsOf(Seeded(defaults, s, chat), chat)
    case Edit(chat, trigger, _) => IsAccepted(op) && Normal(trigger) in CommandsOf(s, chat)
    case Remove(chat, trigger) => IsValidTrigger(Normal(trigger)) && Normal(trigger) in CommandsOf(s, chat)
  }

  /** The store in which the operation works: match, list and an accepted add seed first. */
  function Base(defaults: Commands, s: Store, op: Op): Store {
    if op.Match? || op.List? || (op.Add? && IsAccepted(op)) then Seeded(defaults, s, op.chat) else s
  }

  /** The commands of its chat afterwards. */
  function Changed(defaults: Commands, s: Store, op: Op): Commands {
    var commands := CommandsOf(Base(defaults, s, op), op.chat);
    if (op.Add? || op.Edit?) && Succeeds(defaults, s, op) then commands[Normal(op.trigger) := TrimOf(op.response)]
    else if op.Remove? && Succeeds(defaults, s, op) then commands - {Normal(op.trigger)}
    else commands
  }

  function After(defaults: Commands, s: Store, op: Op): Store {
    if (op.Add? || op.Edit? || op.Remove?) && Succeeds(defaults, s, op)
      then WithCommands(Base(defaults, s, op), op.chat, Changed(defaults, s, op))
    else Base(defaults, s, op)
  }

  /** What match answers. */
  ghost function Answer(defaults: Commands, s: Store, op: Op): MatchResult
    requires op.Match?
  {
    var commands := CommandsOf(Seeded(defaults, s, op.chat), op.chat);
    var word := FirstWord(op.text);
    if word == [] || Normal(word) !in commands then NoMatch
    else Matched(word, Sequential(commands[Normal(word)], Author(op.user, op.mention1),
      Target(op.replyTo, op.mention2)))
  }

  // ---------------------------------------------------------------- the service

  class RpService {
    var commands: map<ChatId, Commands>
    var seeded: set<ChatId>
    var defaults: Commands

    ghost function Contents(): Store
      reads this
    {
      Store(commands, seeded)
    }

    constructor ()
      ensures Contents() == Store(map[], {}) && defaults == map[]
    {
      commands, seeded, defaults := map[], {}, map[];
    }

    method SeedDefaults(chat: ChatId)
      modifies this`commands, this`seeded
      ensures Contents() == Seeded(defaults, old(Contents()), chat)
    {
      if chat in seeded || defaults == map[] {
        return;
      }
      var current := AddMissing(defaults, CommandsOf(Store(commands, seeded), chat));
      commands := commands[chat := current];
      seeded := seeded + {chat};
    }

    method Match(chat: ChatId, user: int, text: Bytes, replyTo: int, mention1: Bytes, mention2: Bytes)
      returns (result: MatchResult)
      modifies this`commands, this`seeded
      ensures Contents() == After(defaults, old(Contents()), Op.Match(chat, user, text, replyTo, mention1, mention2))
      ensures result == Answer(defaults, old(Contents()), Op.Match(chat, user, text, replyTo, mention1, mention2))
    {
      SeedDefaults(chat);
      var trigger := ExtractTrigger(text);
      if trigger == [] {
        return NoMatch;
      }
      var key := NormalizeTrigger(trigger);
      var stored := CommandsOf(Store(commands, seeded), chat);
      if key !in stored {
        return NoMatch;
      }
      var response := SubstituteVariables(stored[key], Author(user, mention1), Target(replyTo, mention2));
      return Matched(trigger, response);
    }

    method AddCommand(chat: ChatId, trigger: Bytes, response: Bytes) returns (ok: bool)
      modifies this`commands, this`seeded
      ensures ok == Succeeds(defaults, old(Contents()), Add(chat, trigger, response))
      ensures Contents() == After(defaults, old(Contents()), Add(chat, trigger, response))
    {
      var t := NormalizeTrigger(trigger);
      var r := Trim(response);
      if !IsValidTrigger(t) || !IsValidResponse(r) {
        return false;
      }
      SeedDefaults(chat);
      var stored := CommandsOf(Store(commands, seeded), chat);
      if t in stored {
        return false;
      }
      commands := commands[chat := stored[t := r]];
      return true;
    }

    method RemoveCommand(chat: ChatId, trigger: Bytes) returns (ok: bool)
      modifies this`commands
      ensures ok == Succeeds(defaults, old(Contents()), Remove(chat, trigger))
      ensures Contents() == After(defaults, old(Contents()), Remove(chat, trigger))
    {
      var t := NormalizeTrigger(trigger);
      var stored := CommandsOf(Store(commands, seeded), chat);
      if !IsValidTrigger(t) || t !in stored {
        return false;
      }
      commands := commands[chat := stored - {t}];
      return true;
    }

    method EditCommand(chat: ChatId, trigger: Bytes, response: Bytes) returns (ok: bool)
      modifies this`commands
      ensures ok == Succeeds(defaults, old(Contents()), Edit(chat, trigger, response))
      ensures Contents() == After(defaults, old(Contents()), Edit(chat, trigger, response))
    {
      var t := NormalizeTrigger(trigger);
      var r := Trim(response);
      if !IsValidTrigger(t) || !IsValidResponse(r) {
        return false;
      }
      var stored := CommandsOf(Store(commands, seeded), chat);
      if t !in stored {
        return false;
      }
      commands := commands[chat := stored[t := r]];
      return true;
    }

    method ListCommands(chat: ChatId) returns (listed: Commands)
      modifies this`commands, this`seeded
      ensures Contents() == After(defaults, old(Contents()), List(chat))
      ensures listed == CommandsOf(Contents(), chat)
    {
      SeedDefaults(chat);
      listed := CommandsOf(Store(commands, seeded), chat);
    }
  }

  /** All defaults but those of the given keys have been offered. */
  ghost predicate PartlyAdded<K, V>(defaults: map<K, V>, current: map<K, V>, r: map<K, V>, left: set<K>) {
    && (forall k | k in r :: k in current || (k in defaults && k !in left))
    && (forall k | k in current :: k in r && r[k] == current[k])
    && (forall k | k in defaults && k !in left :: k in r && (k !in current ==> r[k] == defaults[k]))
  }

  lemma AddedAtLast<K, V>(defaults: map<K, V>, current: map<K, V>, r: map<K, V>)
    requires PartlyAdded(defaults, current, r, {})
    ensures r == defaults + current
  {
    assert r.Keys == (defaults + current).Keys;
  }

  /** The loop over the defaults with addIfAbsent. */
  method AddMissing<K, V>(defaults: map<K, V>, current: map<K, V>) returns (r: map<K, V>)
    ensures r == defaults + current
  {
    r := current;
    var keys := defaults.Keys;
    while keys != {}
      invariant keys <= defaults.Keys && PartlyAdded(defaults, current, r, keys)
      decreases |keys|
    {
      HasElement(keys);
      var k :| k in keys;
      if k !in r {
        r := r[k := defaults[k]];
      }
      keys := keys - {k};
    }
    AddedAtLast(defaults, current, r);
  }

  // ---------------------------------------------------------------- runs

  /** The store after a run, with fixed defaults. */
  function StoreFrom(defaults: Commands, s: Store, ops: seq<Op>): Store {
    if ops == [] then s
    else After(defaults, StoreFrom(defaults, s, ops[..|ops| - 1]), ops[|ops| - 1])
  }

  /** From an empty store. */
  function StoreAfter(defaults: Commands, ops: seq<Op>): Store {
    StoreFrom(defaults, Store(map[], {}), ops)
  }

  /** Commands of one chat after one operation. */
  lemma CommandsAfter(defaults: Commands, s: Store, op: Op, chat: ChatId)
    ensures CommandsOf(After(defaults, s, op), chat)
         == if op.chat == chat then Changed(defaults, s, op) else CommandsOf(s, chat)
    ensures After(defaults, s, op).seeded == Base(defaults, s, op).seeded
  {}

  lemma CommandsSeeded(defaults: Commands, s: Store, chat: ChatId)
    ensures CommandsOf(Seeded(defaults, s, chat), chat) == CommandsOf(s, chat)
         || CommandsOf(Seeded(defaults, s, chat), chat) == defaults + CommandsOf(s, chat)
    ensures chat in s.seeded || defaults == map[] ==> Seeded(defaults, s, chat) == s
    ensures defaults != map[] ==> chat in Seeded(defaults, s, chat).seeded
  {}

  /** Seeding, whenever it happens, changes no value that is there. */
  lemma SeedingKeepsValues(defaults: Commands, s: Store, chat: ChatId, other: ChatId, key: Bytes)
    requires key in CommandsOf(s, other)
    ensures key in CommandsOf(Seeded(defaults, s, chat), other)
    ensures CommandsOf(Seeded(defaults, s, chat), other)[key] == CommandsOf(s, other)[key]
  {}

  // ---------------------------------------------------------------- seeding happens once

  ghost predicate SeededWhereUsed(s: Store, chat: ChatId) {
    CommandsOf(s, chat) != map[] ==> chat in s.seeded
  }

  lemma StaysSeeded(defaults: Commands, s: Store, op: Op, chat: ChatId)
    requires defaults != map[] && SeededWhereUsed(s, chat)
    ensures SeededWhereUsed(After(defaults, s, op), chat)
    ensures chat in s.seeded ==> chat in After(defaults, s, op).seeded
  {
    CommandsAfter(defaults, s, op, chat);
    CommandsSeeded(defaults, s, chat);
    if op.chat == chat && op.Remove? && CommandsOf(s, chat) == map[] { assert Changed(defaults, s, op) == map[]; }
  }

  lemma {:induction false} RunStaysSeeded(defaults: Commands, ops: seq<Op>, chat: ChatId)
    requires defaults != map[]
    ensures SeededWhereUsed(StoreAfter(defaults, ops), chat)
  {
    if ops != [] {
      RunStaysSeeded(defaults, ops[..|ops| - 1], chat);
      StaysSeeded(defaults, StoreAfter(defaults, ops[..|ops| - 1]), ops[|ops| - 1], chat);
    }
  }

  /** In every run a chat with commands is marked as seeded, exactly when there are defaults. */
  lemma NonemptyMeansSeededIff(defaults: Commands, chat: ChatId)
    ensures (forall ops :: SeededWhereUsed(StoreAfter(defaults, ops), chat)) <==> defaults != map[]
  {
    if defaults != map[] {
      forall ops ensures SeededWhereUsed(StoreAfter(defaults, ops), chat) { RunStaysSeeded(defaults, ops, chat); }
    } else {
      var s := AddToEmpty(chat);
    }
  }

  /** Without defaults the first command comes without a flag. */
  lemma AddToEmpty(chat: ChatId) returns (ops: seq<Op>)
    ensures !SeededWhereUsed(StoreAfter(map[], ops), chat)
  {
    var word: Bytes := [0x61];
    var add: Op := Add(chat, word, word);
    ops := [add];
    TrimmedIsKept(word);
    assert word[1..] == [];
    assert Normal(word) == word;
    var s: Store := Store(map[], {});
    assert Succeeds(map[], s, add);
    assert ops[..|ops| - 1] == [] && StoreFrom(map[], s, []) == s;
    assert StoreFrom(map[], s, ops) == After(map[], s, add);
    assert chat !in Base(map[], s, add).seeded;
    CommandsAfter(map[], s, add, chat);
    assert word in Changed(map[], s, add);
  }

  /** The operation successfully adds the given key to the chat. */
  predicate Adds(defaults: Commands, s: Store, op: Op, chat: ChatId, key: Bytes) {
    op.Add? && op.chat == chat && Normal(op.trigger) == key && Succeeds(defaults, s, op)
  }

  /** Or successfully edits or removes it. */
  predicate Replaces(defaults: Commands, s: Store, op: Op, chat: ChatId, key: Bytes) {
    (op.Edit? || op.Remove?) && op.chat == chat && Normal(op.trigger) == key && Succeeds(defaults, s, op)
  }

  lemma AbsentStays(defaults: Commands, s: Store, op: Op, chat: ChatId, key: Bytes)
    requires key !in CommandsOf(s, chat) && (chat in s.seeded || defaults == map[]) && !Adds(defaults, s, op, chat, key)
    ensures key !in CommandsOf(After(defaults, s, op), chat)
    ensures chat in After(defaults, s, op).seeded || defaults == map[]
  {
    CommandsAfter(defaults, s, op, chat);
    CommandsSeeded(defaults, s, chat);
  }

  /** No operation of the run, from the store s on, successfully adds the key. */
  predicate NeverAdds(defaults: Commands, s: Store, ops: seq<Op>, chat: ChatId, key: Bytes) {
    ops == [] ||
    var before := ops[..|ops| - 1];
    NeverAdds(defaults, s, before, chat, key)
      && !Adds(defaults, StoreFrom(defaults, s, before), ops[|ops| - 1], chat, key)
  }

  lemma {:induction false} AbsentStaysOverRun(defaults: Commands, s: Store, ops: seq<Op>, chat: ChatId, key: Bytes)
    requires key !in CommandsOf(s, chat) && (chat in s.seeded || defaults == map[])
         && NeverAdds(defaults, s, ops, chat, key)
    ensures key !in CommandsOf(StoreFrom(defaults, s, ops), chat)
    ensures chat in StoreFrom(defaults, s, ops).seeded || defaults == map[]
  {
    if ops != [] {
      var before := ops[..|ops| - 1];
      AbsentStaysOverRun(defaults, s, before, chat, key);
      AbsentStays(defaults, StoreFrom(defaults, s, before), ops[|ops| - 1], chat, key);
    }
  }

  /**
   A removed trigger stays absent in every further run that does not successfully add it again: seeding never revives
   it.
   */
  lemma RemovedStaysAbsent(defaults: Commands, ops: seq<Op>, remove: Op, more: seq<Op>)
    requires var s := StoreAfter(defaults, ops);
      && remove.Remove? && Succeeds(defaults, s, remove)
      && NeverAdds(defaults, After(defaults, s, remove), more, remove.chat, Normal(remove.trigger))
    ensures var s := StoreFrom(defaults, After(defaults, StoreAfter(defaults, ops), remove), more);
      && Normal(remove.trigger) !in CommandsOf(s, remove.chat)
      && (remove.chat in s.seeded || defaults == map[])
  {
    var s := StoreAfter(defaults, ops);
    CommandsAfter(defaults, s, remove, remove.chat);
    if defaults != map[] { RunStaysSeeded(defaults, ops, remove.chat); }
    AbsentStaysOverRun(defaults, After(defaults, s, remove), more, remove.chat, Normal(remove.trigger));
  }

  // ---------------------------------------------------------------- a command answers until it is changed

  /** The key has this response. */
  predicate Holds(s: Store, chat: ChatId, key: Bytes, response: Bytes) {
    key in CommandsOf(s, chat) && CommandsOf(s, chat)[key] == response
  }

  lemma ValueStays(defaults: Commands, s: Store, op: Op, chat: ChatId, key: Bytes, response: Bytes)
    requires Holds(s, chat, key, response) && !Replaces(defaults, s, op, chat, key)
    ensures Holds(After(defaults, s, op), chat, key, response)
  {
    CommandsAfter(defaults, s, op, chat);
    CommandsSeeded(defaults, s, chat);
  }

  /** No operation of the run, from the store s on, successfully edits or removes the key. */
  predicate NeverReplaces(defaults: Commands, s: Store, ops: seq<Op>, chat: ChatId, key: Bytes) {
    ops == [] ||
    var before := ops[..|ops| - 1];
    NeverReplaces(defaults, s, before, chat, key)
      && !Replaces(defaults, StoreFrom(defaults, s, before), ops[|ops| - 1], chat, key)
  }

  lemma {:induction false} ValueStaysOverRun(defaults: Commands, s: Store, ops: seq<Op>, chat: ChatId, key: Bytes,
                                             response: Bytes)
    requires Holds(s, chat, key, response) && NeverReplaces(defaults, s, ops, chat, key)
    ensures Holds(StoreFrom(defaults, s, ops), chat, key, response)
  {
    if ops != [] {
      var before := ops[..|ops| - 1];
      ValueStaysOverRun(defaults, s, before, chat, key, response);
      ValueStays(defaults, StoreFrom(defaults, s, before), ops[|ops| - 1], chat, key, response);
    }
  }

  /** The store after a successful add or edit and a further run that leaves the command alone. */
  ghost predicate AddedAndKept(defaults: Commands, s: Store, add: Op, more: seq<Op>) {
    && (add.Add? || add.Edit?) && Succeeds(defaults, s, add)
    && NeverReplaces(defaults, After(defaults, s, add), more, add.chat, Normal(add.trigger))
  }

  /**
   After a successful add or edit in any store, every message whose first word has the same normal form gets its
   response, with the mentions filled in, until an edit or a removal of that normal form succeeds.
   */
  lemma AddThenMatch(defaults: Commands, s: Store, add: Op, more: seq<Op>, query: Op)
    requires AddedAndKept(defaults, s, add, more)
    requires query.Match? && query.chat == add.chat && Normal(FirstWord(query.text)) == Normal(add.trigger)
    ensures Answer(defaults, StoreFrom(defaults, After(defaults, s, add), more), query)
         == Matched(FirstWord(query.text),
                    Sequential(TrimOf(add.response), Author(query.user, query.mention1),
                      Target(query.replyTo, query.mention2)))
  {
    CommandsAfter(defaults, s, add, add.chat);
    ValueStaysOverRun(defaults, After(defaults, s, add), more, add.chat, Normal(add.trigger), TrimOf(add.response));
    CommandsSeeded(defaults, StoreFrom(defaults, After(defaults, s, add), more), add.chat);
    assert Normal([]) == [];
  }

  /**
   The response of AddThenMatch, spelled out: the names given by the caller fill in the mentions; the author's id stands
   in for a missing name, and so does the target's where the message is a reply.
   */
  lemma ResponseIsFilled(defaults: Commands, s: Store, add: Op, more: seq<Op>, query: Op, answer: MatchResult)
    requires AddedAndKept(defaults, s, add, more)
    requires query.Match? && query.chat == add.chat && Normal(FirstWord(query.text)) == Normal(add.trigger)
    requires answer == Answer(defaults, StoreFrom(defaults, After(defaults, s, add), more), query)
    ensures answer.Matched? && answer.trigger == FirstWord(query.text)
    ensures query.mention1 != [] && query.mention2 != [] ==>
      answer.response == Sequential(TrimOf(add.response), query.mention1, query.mention2)
    ensures query.mention1 == [] && query.mention2 != [] ==>
      answer.response == Sequential(TrimOf(add.response), Decimal(query.user), query.mention2)
    ensures query.mention1 != [] && query.mention2 == [] ==>
      answer.response == Sequential(TrimOf(add.response), query.mention1,
                                    if query.replyTo > 0 then Decimal(query.replyTo) else [])
    ensures query.mention1 == [] && query.mention2 == [] ==>
      answer.response == Sequential(TrimOf(add.response), Decimal(query.user),
                                    if query.replyTo > 0 then Decimal(query.replyTo) else [])
    ensures Safe(query.mention1) && query.mention1 != [] && query.mention2 != [] ==>
      answer.response == Simultaneous(TrimOf(add.response), query.mention1, query.mention2)
  {
    AddThenMatch(defaults, s, add, more, query);
    if Safe(query.mention1) { SafeSuffices(TrimOf(add.response), query.mention1, query.mention2); }
  }

  /** A removed trigger is not answered either, however it is spelled. */
  lemma RemoveThenNoMatch(defaults: Commands, ops: seq<Op>, remove: Op, more: seq<Op>, query: Op)
    requires var s := StoreAfter(defaults, ops);
      && remove.Remove? && Succeeds(defaults, s, remove)
      && NeverAdds(defaults, After(defaults, s, remove), more, remove.chat, Normal(remove.trigger))
    requires query.Match? && query.chat == remove.chat && Normal(FirstWord(query.text)) == Normal(remove.trigger)
    ensures Answer(defaults, StoreFrom(defaults, After(defaults, StoreAfter(defaults, ops), remove), more), query)
         == NoMatch
  {
    RemovedStaysAbsent(defaults, ops, remove, more);
    CommandsSeeded(defaults, StoreFrom(defaults, After(defaults, StoreAfter(defaults, ops), remove), more),
      remove.chat);
  }

  // ---------------------------------------------------------------- calling a command by its listed name

  lemma WordIsFirstWord(word: Bytes, rest: Bytes)
    requires word != [] && NoSpace(word) && (rest == [] || IsSpace(rest[0]))
    ensures FirstWord(word + rest) == word
  {
    assert word[0] in word && (word + rest)[0] == word[0];
    assert DropSpaces(word + rest) == word + rest;
    WordIs(word, rest);
  }

  /** Typing the stored name calls the command exactly when its trimmed trigger has no pair with a value below 0x30. */
  lemma StoredNameNormalisesIff(op: Op, rest: Bytes)
    requires (op.Add? || op.Edit?) && IsAccepted(op) && (rest == [] || IsSpace(rest[0]))
    ensures Normal(FirstWord(Normal(op.trigger) + rest)) == Normal(op.trigger) <==> !HasLowPair(TrimOf(op.trigger))
  {
    WordIsFirstWord(Normal(op.trigger), rest);
    NormalIdempotentIff(op.trigger);
  }

  /** So for a well-formed trigger the name shown by list, followed by anything, gets the response. */
  lemma ListedNameMatches(defaults: Commands, s: Store, add: Op, more: seq<Op>, query: Op, rest: Bytes)
    requires AddedAndKept(defaults, s, add, more)
    requires Utf8.WellFormed(add.trigger) && (rest == [] || IsSpace(rest[0]))
    requires query.Match? && query.chat == add.chat && query.text == Normal(add.trigger) + rest
    ensures Answer(defaults, StoreFrom(defaults, After(defaults, s, add), more), query)
         == Matched(Normal(add.trigger),
                    Sequential(TrimOf(add.response), Author(query.user, query.mention1),
                      Target(query.replyTo, query.mention2)))
  {
    NormalIdempotent(add.trigger);
    WordIsFirstWord(Normal(add.trigger), rest);
    AddThenMatch(defaults, s, add, more, query);
  }

  // ---------------------------------------------------------------- the id that stands in for a name

  lemma DecimalIsSafeIff(user: int)
    ensures Safe(Decimal(user)) <==> user != 2
  {
    var id := Decimal(user);
    if user >= 0 {
      DecimalDigits(user);
      OnlyTwoIsTwo(user);
      IdIsSafeIff(id);
    } else {
      DecimalDigits(-user);
      assert id == [0x2D] + Decimal(-user);
      assert id[0] == 0x2D && !InAlphabet(0x2D) && forall c | c in id :: c == 0x2D || IsDigit(c);
      OrdinaryIsSafe(id, 0);
    }
  }

  /**
   Without a name for the author, the response is the simultaneous substitution for every template exactly when the id
   is not 2.
   */
  lemma IdStandsInIff(user: int)
    ensures (forall t, mention2 :: Sequential(t, Decimal(user), mention2) == Simultaneous(t, Decimal(user), mention2))
       <==> user != 2
  {
    SequentialIsSimultaneousIffSafe(Decimal(user));
    DecimalIsSafeIff(user);
  }

  // ---------------------------------------------------------------- which commands are accepted

  /** The key is there, or a default that the next use of the chat puts there. */
  predicate Taken(defaults: Commands, s: Store, chat: ChatId, key: Bytes) {
    key in CommandsOf(s, chat) || (chat !in s.seeded && key in defaults)
  }

  lemma TakenIsSeeded(defaults: Commands, s: Store, chat: ChatId, key: Bytes)
    ensures key in CommandsOf(Seeded(defaults, s, chat), chat) <==> Taken(defaults, s, chat, key)
  {}

  /** A message is answered exactly when its first word names a command of the chat or a default still to come. */
  lemma MatchedIffTaken(defaults: Commands, s: Store, query: Op)
    requires query.Match?
    ensures Answer(defaults, s, query).Matched?
       <==> Split(query.text) != [] && Taken(defaults, s, query.chat, Normal(Split(query.text)[0]))
  {
    FirstWordIsToken(query.text);
    TakenIsSeeded(defaults, s, query.chat, Normal(FirstWord(query.text)));
  }

  /** A trigger of one word of 1 to 64 bytes with a response of 1 to 2000 bytes. */
  predicate IsAcceptable(trigger: Bytes, response: Bytes) {
    |Split(trigger)| == 1 && |Split(trigger)[0]| <= 64 && 1 <= |TrimOf(response)| <= 2000
  }

  /** Every such command can be added to any chat exactly when its name is free, and edited exactly when it is there. */
  lemma AcceptableSucceedsIff(defaults: Commands, s: Store, chat: ChatId, trigger: Bytes, response: Bytes)
    requires IsAcceptable(trigger, response)
    ensures Succeeds(defaults, s, Add(chat, trigger, response)) <==> !Taken(defaults, s, chat, Normal(trigger))
    ensures Succeeds(defaults, s, Edit(chat, trigger, response)) <==> Normal(trigger) in CommandsOf(s, chat)
    ensures Succeeds(defaults, s, Remove(chat, trigger)) <==> Normal(trigger) in CommandsOf(s, chat)
  {
    NormalIsWordIff(trigger);
    TakenIsSeeded(defaults, s, chat, Normal(trigger));
  }

  /** And for well-formed triggers nothing else can be added or edited, nor anything but such a word removed. */
  lemma OnlyAcceptableSucceeds(defaults: Commands, s: Store, chat: ChatId, trigger: Bytes, response: Bytes)
    requires Utf8.WellFormed(trigger)
    ensures Succeeds(defaults, s, Add(chat, trigger, response)) || Succeeds(defaults, s, Edit(chat, trigger, response))
            ==> IsAcceptable(trigger, response)
    ensures Succeeds(defaults, s, Remove(chat, trigger)) ==> |Split(trigger)| == 1 && |Split(trigger)[0]| <= 64
  {
    NormalIsWordIff(trigger);
  }

  // ---------------------------------------------------------------- the defaults

  /** Before a chat is seeded it has no commands; from then on the key has its default. */
  ghost predicate DefaultStands(defaults: Commands, s: Store, chat: ChatId, key: Bytes)
    requires key in defaults
  {
    if chat in s.seeded then Holds(s, chat, key, defaults[key]) else CommandsOf(s, chat) == map[]
  }

  lemma DefaultStandsStep(defaults: Commands, s: Store, op: Op, chat: ChatId, key: Bytes)
    requires key in defaults && DefaultStands(defaults, s, chat, key) && !Replaces(defaults, s, op, chat, key)
    ensures DefaultStands(defaults, After(defaults, s, op), chat, key)
  {
    CommandsAfter(defaults, s, op, chat);
    if chat in s.seeded {
      ValueStays(defaults, s, op, chat, key, defaults[key]);
    }
  }

  lemma {:induction false} DefaultStandsOverRun(defaults: Commands, ops: seq<Op>, chat: ChatId, key: Bytes)
    requires key in defaults && NeverReplaces(defaults, Store(map[], {}), ops, chat, key)
    ensures DefaultStands(defaults, StoreAfter(defaults, ops), chat, key)
  {
    if ops != [] {
      DefaultStandsOverRun(defaults, ops[..|ops| - 1], chat, key);
      DefaultStandsStep(defaults, StoreAfter(defaults, ops[..|ops| - 1]), ops[|ops| - 1], chat, key);
    }
  }

  /** In every chat and every run, a default answers until an edit or a removal of it succeeds. */
  lemma DefaultsAnswer(defaults: Commands, ops: seq<Op>, query: Op)
    requires query.Match? && FirstWord(query.text) != [] && Normal(FirstWord(query.text)) in defaults
    requires NeverReplaces(defaults, Store(map[], {}), ops, query.chat, Normal(FirstWord(query.text)))
    requires query.mention1 != [] && query.mention2 != []
    ensures Answer(defaults, StoreAfter(defaults, ops), query)
         == Matched(FirstWord(query.text),
                    Sequential(defaults[Normal(FirstWord(query.text))], query.mention1, query.mention2))
  {
    var key := Normal(FirstWord(query.text));
    DefaultStandsOverRun(defaults, ops, query.chat, key);
    CommandsSeeded(defaults, StoreAfter(defaults, ops), query.chat);
  }
}
