/**
 What becomes of each request over a run of requests, answers and updates of
 core/src/tdlib/tdlib_client.cpp, told from the events alone, and the proof that
 the callback tables of the client do exactly that.
 */
module Updates {
  import opened Wrappers
  import opened Callbacks

  datatype Event =
    | Request(callback: Option<Callback>)
    | Response(id: RequestId, message: Option<int>)   // None is an error
    | Updated(update: Update)

  // ---------------------------------------------------------------- the client

  function StepsOfEvent(event: Event): seq<Step> {
    match event
    case Request(callback) => [Send(callback)]
    case Response(id, message) => [Answer(id, message)]
    case Updated(update) => StepsOf(update)
  }

  function AllSteps(events: seq<Event>): seq<Step> {
    if events == [] then [] else AllSteps(events[..|events| - 1]) + StepsOfEvent(events[|events| - 1])
  }

  /** The client after the events, handled one by one. */
  function ClientAfter(events: seq<Event>): Client {
    After(START, AllSteps(events))
  }

  // ---------------------------------------------------------------- the story of one request

  datatype Fate =
    | Unsent
    | Asked(callback: Callback)   // no answer yet
    | Untracked                   // nothing is owed for it, or not any more
    | TextUnder(key: Key)         // on its way as this message
    | DocumentUnder(key: Key)
    | Lost                        // another send took over its message
    | Told(id: int)               // onSent was called with id
    | Removed                     // the temp file is gone

  /** How many requests were sent. */
  function Count(events: seq<Event>): nat {
    if events == [] then 0
    else Count(events[..|events| - 1]) + (if events[|events| - 1].Request? then 1 else 0)
  }

  /** The update is about the message under the key, by its temporary id or among the deleted ones. */
  predicate Names(update: Update, key: Key) {
    match update
    case SendSucceeded(temp, message) => temp == key.id && key.chat == if message.Some? then message.value.chat else 0
    case SendFailed(temp, message) => temp == key.id && key.chat == if message.Some? then message.value.chat else 0
    case Deleted(chat, ids) => chat == key.chat && key.id in ids
    case Unrelated => false
  }

  /** A failed send also ends the message it was given instead. */
  predicate FailsAs(update: Update, key: Key) {
    update.SendFailed? && update.message == Some(key)
  }

  /** What onSent is told: the final id of a message that was sent, and 0 otherwise. */
  function Outcome(update: Update): int {
    if update.SendSucceeded? && update.message.Some? then update.message.value.id else 0
  }

  /** What an answer makes of its own request. */
  function AnsweredFate(callback: Callback, message: Option<int>): Fate {
    match callback
    case Text(chat, tracked) =>
      if !tracked then Untracked else if message.None? then Told(0) else TextUnder(Key(chat, message.value))
    case Document(chat) => if message.None? then Removed else DocumentUnder(Key(chat, message.value))
    case Other => Untracked
  }

  /** The fate of t after one more event; `count` requests were sent before, and `answered` is the fate of e.id. */
  function FateNext(f: Fate, t: RequestId, e: Event, count: nat, answered: Fate): Fate {
    if e.Request? then
      if t.n != count + 1 then f else if e.callback.Some? then Asked(e.callback.value) else Untracked
    else if e.Response? && answered.Asked? then
      var filed := AnsweredFate(answered.callback, e.message);
      if e.id == t then filed else if f == filed && (f.TextUnder? || f.DocumentUnder?) then Lost else f
    else if e.Updated? && f.TextUnder? && Names(e.update, f.key) then Told(Outcome(e.update))
    else if e.Updated? && f.DocumentUnder? && (Names(e.update, f.key) || FailsAs(e.update, f.key)) then Removed
    else f
  }

  function FateOf(events: seq<Event>, t: RequestId): Fate {
    if events == [] then Unsent
    else
      var before, e := events[..|events| - 1], events[|events| - 1];
      FateNext(FateOf(before, t), t, e, Count(before), if e.Response? then FateOf(before, e.id) else Unsent)
  }

  // ---------------------------------------------------------------- the tables tell the same

  ghost predicate Matches(c: Client, t: RequestId, f: Fate) {
    && (f.Unsent? <==> !(1 <= t.n < c.next))
    && (t in c.callbacks <==> f.Asked?)
    && (f.Asked? ==> c.callbacks[t] == f.callback)
    && (forall k :: k in c.texts && c.texts[k] == t <==> f == TextUnder(k))
    && (forall k :: k in c.docs && c.docs[k] == t <==> f == DocumentUnder(k))
    && (forall id :: OnSent(t, id) in c.effects <==> f == Told(id))
    && (Cleanup(t) in c.effects <==> f == Removed)
  }

  lemma SendMatches(c: Client, t: RequestId, f: Fate, callback: Option<Callback>)
    requires c.next >= 1 && Matches(c, t, f)
    ensures Matches(Next(c, Send(callback)), t, FateNext(f, t, Request(callback), c.next - 1, Unsent))
  {}

  lemma AnswerMatches(c: Client, t: RequestId, f: Fate, id: RequestId, message: Option<int>, g: Fate)
    requires Matches(c, t, f) && Matches(c, id, g) && (id == t ==> f == g)
    ensures Matches(Next(c, Answer(id, message)), t, FateNext(f, t, Response(id, message), c.next, g))
  {}

  function FateDropped(f: Fate, key: Key): Fate {
    if f == DocumentUnder(key) then Removed else f
  }

  function FateSettled(f: Fate, key: Key, id: int): Fate {
    if f == TextUnder(key) then Told(id) else f
  }

  lemma DropMatches(c: Client, t: RequestId, f: Fate, key: Key)
    requires Matches(c, t, f)
    ensures Matches(Next(c, Drop(key)), t, FateDropped(f, key))
  {}

  lemma SettleMatches(c: Client, t: RequestId, f: Fate, key: Key, id: int)
    requires Matches(c, t, f)
    ensures Matches(Next(c, Settle(key, id)), t, FateSettled(f, key, id))
  {}

  lemma BothMatch(c: Client, t: RequestId, f: Fate, key: Key, id: int)
    requires Matches(c, t, f)
    ensures Matches(After(c, [Drop(key), Settle(key, id)]), t, FateSettled(FateDropped(f, key), key, id))
  {
    DropMatches(c, t, f, key);
    SettleMatches(Next(c, Drop(key)), t, FateDropped(f, key), key, id);
    AfterTwo(c, Drop(key), Settle(key, id));
  }

  lemma {:induction false} DeletedMatches(c: Client, t: RequestId, f: Fate, chat: int, ids: seq<int>)
    requires Matches(c, t, f)
    ensures Matches(After(c, DeletedSteps(chat, ids)), t, FateNext(f, t, Updated(Deleted(chat, ids)), 0, Unsent))
  {
    if ids != [] {
      var front, key := ids[..|ids| - 1], Key(chat, ids[|ids| - 1]);
      DeletedMatches(c, t, f, chat, front);
      AfterJoin(c, DeletedSteps(chat, front), [Drop(key), Settle(key, 0)]);
      var g := FateNext(f, t, Updated(Deleted(chat, front)), 0, Unsent);
      BothMatch(After(c, DeletedSteps(chat, front)), t, g, key, 0);
      assert ids == front + [key.id];
    }
  }

  lemma FailedMatches(c: Client, t: RequestId, f: Fate, temp: int, message: Option<Key>)
    requires Matches(c, t, f)
    ensures Matches(After(c, StepsOf(SendFailed(temp, message))), t,
                    FateNext(f, t, Updated(SendFailed(temp, message)), 0, Unsent))
  {
    var key := Key(ChatOf(message), temp);
    var both := [Drop(key), Settle(key, 0)];
    BothMatch(c, t, f, key, 0);
    if message.Some? {
      AfterJoin(c, both, [Drop(message.value)]);
      AfterOne(After(c, both), Drop(message.value));
      DropMatches(After(c, both), t, FateSettled(FateDropped(f, key), key, 0), message.value);
    } else {
      assert both + [] == both;
    }
  }

  lemma UpdateMatches(c: Client, t: RequestId, f: Fate, update: Update)
    requires Matches(c, t, f)
    ensures Matches(After(c, StepsOf(update)), t, FateNext(f, t, Updated(update), 0, Unsent))
  {
    match update
    case SendSucceeded(temp, message) => BothMatch(c, t, f, Key(ChatOf(message), temp), Outcome(update));
    case SendFailed(temp, message) => FailedMatches(c, t, f, temp, message);
    case Deleted(chat, ids) => DeletedMatches(c, t, f, chat, ids);
    case Unrelated =>
  }

  lemma UpdateKeepsNumber(c: Client, steps: seq<Step>)
    requires forall i | 0 <= i < |steps| :: steps[i].Drop? || steps[i].Settle?
    ensures After(c, steps).next == c.next
  {
    if steps != [] { UpdateKeepsNumber(c, steps[..|steps| - 1]); }
  }

  lemma {:induction false} DeletedAreUpdates(chat: int, ids: seq<int>)
    ensures forall i | 0 <= i < |DeletedSteps(chat, ids)| ::
      DeletedSteps(chat, ids)[i].Drop? || DeletedSteps(chat, ids)[i].Settle?
  {
    if ids != [] { DeletedAreUpdates(chat, ids[..|ids| - 1]); }
  }

  lemma NumberAfter(c: Client, e: Event)
    ensures After(c, StepsOfEvent(e)).next == c.next + if e.Request? then 1 else 0
  {
    match e
    case Request(callback) => AfterOne(c, Send(callback));
    case Response(id, message) => AfterOne(c, Answer(id, message));
    case Updated(update) =>
      if update.Deleted? { DeletedAreUpdates(update.chat, update.ids); }
      UpdateKeepsNumber(c, StepsOf(update));
  }

  lemma {:induction false} RunNumber(events: seq<Event>)
    ensures ClientAfter(events).next == Count(events) + 1
  {
    if events != [] {
      var before := events[..|events| - 1];
      RunNumber(before);
      AfterJoin(START, AllSteps(before), StepsOfEvent(events[|events| - 1]));
      NumberAfter(ClientAfter(before), events[|events| - 1]);
    }
  }

  lemma EventMatches(c: Client, t: RequestId, f: Fate, e: Event, g: Fate)
    requires c.next >= 1 && Matches(c, t, f)
    requires e.Response? ==> Matches(c, e.id, g) && (e.id == t ==> f == g)
    ensures Matches(After(c, StepsOfEvent(e)), t, FateNext(f, t, e, c.next - 1, g))
  {
    match e
    case Request(callback) =>
      AfterOne(c, Send(callback));
      SendMatches(c, t, f, callback);
    case Response(id, message) =>
      AfterOne(c, Answer(id, message));
      AnswerMatches(c, t, f, id, message, g);
    case Updated(update) =>
      UpdateMatches(c, t, f, update);
  }

  lemma {:induction false} RunMatches(events: seq<Event>, t: RequestId)
    ensures Matches(ClientAfter(events), t, FateOf(events, t))
  {
    if events != [] {
      var before, e := events[..|events| - 1], events[|events| - 1];
      RunMatches(before, t);
      if e.Response? { RunMatches(before, e.id); }
      RunNumber(before);
      AfterJoin(START, AllSteps(before), StepsOfEvent(e));
      EventMatches(ClientAfter(before), t, FateOf(before, t), e, if e.Response? then FateOf(before, e.id) else Unsent);
    }
  }

  /** In every run, onSent has been called with id exactly for the sends whose story says so. */
  lemma ToldIffFate(events: seq<Event>, t: RequestId, id: int)
    ensures OnSent(t, id) in ClientAfter(events).effects <==> FateOf(events, t) == Told(id)
  {
    RunMatches(events, t);
  }

  /** And a temp file has been removed exactly for the documents whose story says so. */
  lemma RemovedIffFate(events: seq<Event>, t: RequestId)
    ensures Cleanup(t) in ClientAfter(events).effects <==> FateOf(events, t) == Removed
  {
    RunMatches(events, t);
  }

  lemma FateAfterUpdate(events: seq<Event>, t: RequestId, update: Update)
    ensures FateOf(events + [Updated(update)], t) == FateNext(FateOf(events, t), t, Updated(update), 0, Unsent)
  {
    var run := events + [Updated(update)];
    assert run[..|run| - 1] == events;
  }

  lemma TextAfter(events: seq<Event>, t: RequestId, key: Key, update: Update, id: int)
    requires FateOf(events, t) == TextUnder(key)
    ensures OnSent(t, id) in ClientAfter(events + [Updated(update)]).effects
       <==> Names(update, key) && id == Outcome(update)
  {
    FateAfterUpdate(events, t, update);
    ToldIffFate(events + [Updated(update)], t, id);
  }

  lemma DocumentAfter(events: seq<Event>, t: RequestId, key: Key, update: Update)
    requires FateOf(events, t) == DocumentUnder(key)
    ensures Cleanup(t) in ClientAfter(events + [Updated(update)]).effects
       <==> Names(update, key) || FailsAs(update, key)
  {
    FateAfterUpdate(events, t, update);
    RemovedIffFate(events + [Updated(update)], t);
  }

  /** A text on its way as (chat, temp): each kind of update about it calls onSent at once, with the right id. */
  lemma TextUpdates(events: seq<Event>, t: RequestId, chat: int, temp: int, id: int, ids: seq<int>)
    requires FateOf(events, t) == TextUnder(Key(chat, temp))
    ensures OnSent(t, id) in ClientAfter(events + [Updated(SendSucceeded(temp, Some(Key(chat, id))))]).effects
    ensures OnSent(t, 0) in ClientAfter(events + [Updated(SendFailed(temp, Some(Key(chat, id))))]).effects
    ensures OnSent(t, 0) in ClientAfter(events + [Updated(Deleted(chat, ids))]).effects <==> temp in ids
  {
    TextAfter(events, t, Key(chat, temp), SendSucceeded(temp, Some(Key(chat, id))), id);
    TextAfter(events, t, Key(chat, temp), SendFailed(temp, Some(Key(chat, id))), 0);
    TextAfter(events, t, Key(chat, temp), Deleted(chat, ids), 0);
  }

  /** A document on its way: each removes its file, and so does a failure under its new id. */
  lemma DocumentUpdates(events: seq<Event>, t: RequestId, chat: int, temp: int, id: int, ids: seq<int>)
    requires FateOf(events, t) == DocumentUnder(Key(chat, temp))
    ensures Cleanup(t) in ClientAfter(events + [Updated(SendSucceeded(temp, Some(Key(chat, id))))]).effects
    ensures Cleanup(t) in ClientAfter(events + [Updated(SendFailed(temp, Some(Key(chat, id))))]).effects
    ensures Cleanup(t) in ClientAfter(events + [Updated(SendFailed(id, Some(Key(chat, temp))))]).effects
    ensures Cleanup(t) in ClientAfter(events + [Updated(Deleted(chat, ids))]).effects <==> temp in ids
  {
    DocumentAfter(events, t, Key(chat, temp), SendSucceeded(temp, Some(Key(chat, id))));
    DocumentAfter(events, t, Key(chat, temp), SendFailed(temp, Some(Key(chat, id))));
    DocumentAfter(events, t, Key(chat, temp), SendFailed(id, Some(Key(chat, temp))));
    DocumentAfter(events, t, Key(chat, temp), Deleted(chat, ids));
  }
}
