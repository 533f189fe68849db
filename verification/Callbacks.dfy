/**
 The callback tables of core/src/tdlib/tdlib_client.cpp: requests waiting for their
 answer, sends waiting for their outcome, and temp files waiting for their upload.
 Every callback and every temp file is identified by the request that created it;
 what the client does for one, calling onSent or removing the file, is recorded.
 */
module Callbacks {
  import opened Wrappers

  datatype RequestId = RequestId(n: nat)

  /** A message of a chat. */
  datatype Key = Key(chat: int, id: int)

  /**
   What the response handler of a request does: track a text send, track a document, or nothing that is tracked here.
   */
  datatype Callback = Text(chat: int, tracked: bool) | Document(chat: int) | Other

  datatype Effect = OnSent(who: RequestId, id: int) | Cleanup(who: RequestId)

  /** nextRequestId_, callbacks_, pendingTextSends_, pendingDocuments_ and what was done so far. */
  datatype Client = Client(
    next: nat,
    callbacks: map<RequestId, Callback>,
    texts: map<Key, RequestId>,
    docs: map<Key, RequestId>,
    effects: seq<Effect>)

  const START := Client(1, map[], map[], map[], [])

  // ---------------------------------------------------------------- elementary steps

  datatype Step =
    | Send(callback: Option<Callback>)
    | Answer(id: RequestId, message: Option<int>)   // None is an error
    | Settle(key: Key, confirmed: int)
    | Drop(key: Key)

  function Next(c: Client, step: Step): Client {
    match step
    case Send(callback) => Sent(c, callback)
    case Answer(id, message) => if id in c.callbacks then Answered(c, id, c.callbacks[id], message) else c
    case Settle(key, confirmed) => Settled(c, key, confirmed)
    case Drop(key) => Dropped(c, key)
  }

  function Sent(c: Client, callback: Option<Callback>): Client {
    Client(c.next + 1, if callback.Some? then c.callbacks[RequestId(c.next) := callback.value] else c.callbacks,
           c.texts, c.docs, c.effects)
  }

  /** The handler runs after the entry is taken out. */
  function Answered(c: Client, id: RequestId, callback: Callback, message: Option<int>): Client {
    Client(c.next, c.callbacks - {id},
           if Tracks(callback) && message.Some? then c.texts[Key(callback.chat, message.value) := id] else c.texts,
           if callback.Document? && message.Some? then c.docs[Key(callback.chat, message.value) := id] else c.docs,
           if message.Some? then c.effects
           else if Tracks(callback) then c.effects + [OnSent(id, 0)]
           else if callback.Document? then c.effects + [Cleanup(id)]
           else c.effects)
  }

  function Settled(c: Client, key: Key, confirmed: int): Client {
    if key in c.texts
      then Client(c.next, c.callbacks, c.texts - {key}, c.docs, c.effects + [OnSent(c.texts[key], confirmed)])
    else c
  }

  function Dropped(c: Client, key: Key): Client {
    if key in c.docs
      then Client(c.next, c.callbacks, c.texts, c.docs - {key}, c.effects + [Cleanup(c.docs[key])])
    else c
  }

  predicate Tracks(callback: Callback) {
    callback.Text? && callback.tracked
  }

  /** Something is owed for the request: a call of onSent or the removal of a file. */
  predicate Owes(callback: Option<Callback>) {
    callback.Some? && (Tracks(callback.value) || callback.value.Document?)
  }

  function After(c: Client, steps: seq<Step>): Client {
    if steps == [] then c else Next(After(c, steps[..|steps| - 1]), steps[|steps| - 1])
  }

  // ---------------------------------------------------------------- the client

  /** Updates of TDLib; the message of an outcome may be missing. */
  datatype Update =
    | SendSucceeded(temp: int, message: Option<Key>)
    | SendFailed(temp: int, message: Option<Key>)
    | Deleted(chat: int, ids: seq<int>)
    | Unrelated

  /** chat_id_of */
  function ChatOf(message: Option<Key>): int {
    if message.Some? then message.value.chat else 0
  }

  function DeletedSteps(chat: int, ids: seq<int>): seq<Step> {
    if ids == [] then []
    else DeletedSteps(chat, ids[..|ids| - 1]) + [Drop(Key(chat, ids[|ids| - 1])), Settle(Key(chat, ids[|ids| - 1]), 0)]
  }

  /** The elementary steps of an update. */
  function StepsOf(update: Update): seq<Step> {
    match update
    case SendSucceeded(temp, message) =>
      var key := Key(ChatOf(message), temp);
      [Drop(key), Settle(key, if message.Some? then message.value.id else 0)]
    case SendFailed(temp, message) =>
      var key := Key(ChatOf(message), temp);
      [Drop(key), Settle(key, 0)] + (if message.Some? then [Drop(message.value)] else [])
    case Deleted(chat, ids) => DeletedSteps(chat, ids)
    case Unrelated => []
  }

  lemma AfterOne(c: Client, step: Step)
    ensures After(c, [step]) == Next(c, step)
  {
    assert [step][..0] == [];
  }

  lemma AfterTwo(c: Client, first: Step, second: Step)
    ensures After(c, [first, second]) == Next(Next(c, first), second)
  {
    assert [first, second][..1] == [first];
    AfterOne(c, first);
  }

  lemma {:induction false} AfterJoin(c: Client, steps: seq<Step>, more: seq<Step>)
    ensures After(c, steps + more) == After(After(c, steps), more)
  {
    if more == [] {
      assert steps + more == steps;
    } else {
      assert (steps + more)[..|steps + more| - 1] == steps + more[..|more| - 1];
      AfterJoin(c, steps, more[..|more| - 1]);
    }
  }

  class TdlibClient {
    var nextRequestId: nat
    var callbacks: map<RequestId, Callback>
    var pendingTextSends: map<Key, RequestId>
    var pendingDocuments: map<Key, RequestId>
    var effects: seq<Effect>

    ghost function Contents(): Client
      reads this
    {
      Client(nextRequestId, callbacks, pendingTextSends, pendingDocuments, effects)
    }

    constructor ()
      ensures Contents() == START
    {
      nextRequestId, callbacks, pendingTextSends, pendingDocuments, effects := 1, map[], map[], map[], [];
    }

    method SendRequest(callback: Option<Callback>) returns (id: RequestId)
      modifies this
      ensures id == RequestId(old(nextRequestId)) && Contents() == Next(old(Contents()), Send(callback))
    {
      id := RequestId(nextRequestId);
      nextRequestId := nextRequestId + 1;
      if callback.Some? {
        callbacks := callbacks[id := callback.value];
      }
    }

    /** One turn of the loop for a response. */
    method Receive(id: RequestId, message: Option<int>)
      modifies this
      ensures Contents() == Next(old(Contents()), Answer(id, message))
    {
      if id !in callbacks {
        return;
      }
      var callback := callbacks[id];
      callbacks := callbacks - {id};
      match callback
      case Text(chat, tracked) =>
        if tracked && message.None? {
          effects := effects + [OnSent(id, 0)];
        } else if tracked {
          pendingTextSends := pendingTextSends[Key(chat, message.value) := id];
        }
      case Document(chat) =>
        if message.None? {
          effects := effects + [Cleanup(id)];
        } else {
          pendingDocuments := pendingDocuments[Key(chat, message.value) := id];
        }
      case Other =>
    }

    method RemovePendingDocument(key: Key)
      modifies this
      ensures Contents() == Next(old(Contents()), Drop(key))
    {
      if key !in pendingDocuments {
        return;
      }
      var path := pendingDocuments[key];
      pendingDocuments := pendingDocuments - {key};
      effects := effects + [Cleanup(path)];
    }

    method SettlePendingSend(key: Key, confirmed: int)
      modifies this
      ensures Contents() == Next(old(Contents()), Settle(key, confirmed))
    {
      if key !in pendingTextSends {
        return;
      }
      var onSent := pendingTextSends[key];
      pendingTextSends := pendingTextSends - {key};
      effects := effects + [OnSent(onSent, confirmed)];
    }

    method HandleDocumentSendFailure(temp: int, message: Option<Key>)
      modifies this
      ensures Contents() == After(old(Contents()), StepsOf(SendFailed(temp, message)))
    {
      ghost var c := Contents();
      var key := Key(ChatOf(message), temp);
      RemovePendingDocument(key);
      SettlePendingSend(key, 0);
      AfterTwo(c, Drop(key), Settle(key, 0));
      if message.Some? {
        AfterJoin(c, [Drop(key), Settle(key, 0)], [Drop(message.value)]);
        AfterOne(Contents(), Drop(message.value));
        RemovePendingDocument(message.value);
      } else {
        assert [Drop(key), Settle(key, 0)] + [] == [Drop(key), Settle(key, 0)];
      }
    }

    method HandleDeletedMessages(chat: int, ids: seq<int>)
      modifies this
      ensures Contents() == After(old(Contents()), DeletedSteps(chat, ids))
    {
      for k := 0 to |ids|
        invariant Contents() == After(old(Contents()), DeletedSteps(chat, ids[..k]))
      {
        ghost var c := Contents();
        var key := Key(chat, ids[k]);
        RemovePendingDocument(key);
        SettlePendingSend(key, 0);
        AfterTwo(c, Drop(key), Settle(key, 0));
        AfterJoin(old(Contents()), DeletedSteps(chat, ids[..k]), [Drop(key), Settle(key, 0)]);
        assert ids[..k + 1][..k] == ids[..k];
      }
      assert ids[..|ids|] == ids;
    }

    method ProcessUpdate(update: Update)
      modifies this
      ensures Contents() == After(old(Contents()), StepsOf(update))
    {
      match update
      case SendSucceeded(temp, message) =>
        var key := Key(ChatOf(message), temp);
        AfterTwo(Contents(), Drop(key), Settle(key, if message.Some? then message.value.id else 0));
        RemovePendingDocument(key);
        SettlePendingSend(key, if message.Some? then message.value.id else 0);
      case SendFailed(temp, message) =>
        HandleDocumentSendFailure(temp, message);
      case Deleted(chat, ids) =>
        HandleDeletedMessages(chat, ids);
      case Unrelated =>
    }
  }

  // ---------------------------------------------------------------- at most once, in any order

  ghost function Whos(effects: seq<Effect>): set<RequestId> {
    set e | e in effects :: e.who
  }

  lemma WhosAppend(effects: seq<Effect>, e: Effect)
    ensures Whos(effects + [e]) == Whos(effects) + {e.who}
  {
    assert forall x | x in effects :: x in effects + [e];
    assert e in effects + [e];
  }

  ghost predicate AtMostOnce(effects: seq<Effect>) {
    forall i, j | 0 <= i < j < |effects| :: effects[i].who != effects[j].who
  }

  lemma OnceMore(effects: seq<Effect>, e: Effect)
    requires AtMostOnce(effects) && e.who !in Whos(effects)
    ensures AtMostOnce(effects + [e])
  {
    forall i | 0 <= i < |effects| ensures effects[i].who != e.who { assert effects[i] in effects; }
  }

  /** Numbers are given out in order, starting from 1. */
  ghost predicate Known(c: Client) {
    && c.next >= 1
    && (forall t | t in c.callbacks :: 1 <= t.n < c.next)
    && (forall k | k in c.texts :: 1 <= c.texts[k].n < c.next)
    && (forall k | k in c.docs :: 1 <= c.docs[k].n < c.next)
    && (forall t | t in Whos(c.effects) :: 1 <= t.n < c.next)
  }

  /** What waits for an answer waits for nothing else and is not done. */
  ghost predicate CallbacksApart(c: Client) {
    && (forall t | t in c.callbacks :: t !in Whos(c.effects))
    && (forall k | k in c.texts :: c.texts[k] !in c.callbacks && c.texts[k] !in Whos(c.effects))
    && (forall k | k in c.docs :: c.docs[k] !in c.callbacks && c.docs[k] !in Whos(c.effects))
  }

  /** No request waits under two keys. */
  ghost predicate KeysApart(c: Client) {
    && (forall k, l | k in c.texts && l in c.texts && k != l :: c.texts[k] != c.texts[l])
    && (forall k, l | k in c.docs && l in c.docs && k != l :: c.docs[k] != c.docs[l])
    && (forall k, l | k in c.texts && l in c.docs :: c.texts[k] != c.docs[l])
  }

  ghost predicate Inv(c: Client) {
    Known(c) && CallbacksApart(c) && KeysApart(c) && AtMostOnce(c.effects)
  }

  lemma SendKeeps(c: Client, callback: Option<Callback>)
    requires Inv(c)
    ensures Inv(Sent(c, callback))
  {}

  lemma AnswerEffects(c: Client, id: RequestId, message: Option<int>)
    requires AtMostOnce(c.effects) && id in c.callbacks && id !in Whos(c.effects)
    ensures var e := Answered(c, id, c.callbacks[id], message).effects;
      && AtMostOnce(e) && Whos(e) <= Whos(c.effects) + {id}
      && (message.Some? ==> e == c.effects)
      && (Owes(Some(c.callbacks[id])) && message.None? ==> id in Whos(e))
      && Whos(c.effects) <= Whos(e)
  {
    WhosAppend(c.effects, OnSent(id, 0));
    WhosAppend(c.effects, Cleanup(id));
    OnceMore(c.effects, OnSent(id, 0));
    OnceMore(c.effects, Cleanup(id));
  }

  /** Where the answered request waits afterwards. */
  lemma AnswerTables(c: Client, id: RequestId, message: Option<int>)
    requires id in c.callbacks
    ensures var r := Answered(c, id, c.callbacks[id], message);
      && r.next == c.next && r.callbacks.Keys == c.callbacks.Keys - {id}
      && (forall k | k in r.texts :: (k in c.texts && r.texts[k] == c.texts[k]) || (message.Some? && r.texts[k] == id))
      && (forall k | k in r.docs :: (k in c.docs && r.docs[k] == c.docs[k]) || (message.Some? && r.docs[k] == id))
  {}

  lemma AnswerKeeps(c: Client, id: RequestId, message: Option<int>)
    requires Inv(c) && id in c.callbacks
    ensures Inv(Answered(c, id, c.callbacks[id], message))
  {
    AnswerEffects(c, id, message);
    AnswerTables(c, id, message);
    AnswerKeysApart(c, id, message);
    var r := Answered(c, id, c.callbacks[id], message);
    assert Known(r);
    assert CallbacksApart(r);
  }

  lemma AnswerKeysApart(c: Client, id: RequestId, message: Option<int>)
    requires CallbacksApart(c) && KeysApart(c) && id in c.callbacks
    ensures KeysApart(Answered(c, id, c.callbacks[id], message))
  {}

  lemma SettleKeeps(c: Client, key: Key, confirmed: int)
    requires Inv(c)
    ensures Inv(Settled(c, key, confirmed))
  {
    if key in c.texts {
      WhosAppend(c.effects, OnSent(c.texts[key], confirmed));
      OnceMore(c.effects, OnSent(c.texts[key], confirmed));
    }
  }

  lemma DropKeeps(c: Client, key: Key)
    requires Inv(c)
    ensures Inv(Dropped(c, key))
  {
    if key in c.docs {
      WhosAppend(c.effects, Cleanup(c.docs[key]));
      OnceMore(c.effects, Cleanup(c.docs[key]));
    }
  }

  /**
   For any order of sends, answers, outcomes and deletions, every onSent is called and every file removed at most once.
   */
  lemma {:induction false} EffectsAtMostOnce(steps: seq<Step>)
    ensures Inv(After(START, steps))
    ensures AtMostOnce(After(START, steps).effects)
  {
    if steps != [] {
      var c, step := After(START, steps[..|steps| - 1]), steps[|steps| - 1];
      EffectsAtMostOnce(steps[..|steps| - 1]);
      match step
      case Send(callback) => SendKeeps(c, callback);
      case Answer(id, message) => if id in c.callbacks { AnswerKeeps(c, id, message); }
      case Settle(key, confirmed) => SettleKeeps(c, key, confirmed);
      case Drop(key) => DropKeeps(c, key);
    }
  }

  // ---------------------------------------------------------------- conservation

  /** The requests of a run, in order; request n is number n - 1 here. */
  function Requests(steps: seq<Step>): seq<Option<Callback>> {
    if steps == [] then []
    else
      var last := steps[|steps| - 1];
      Requests(steps[..|steps| - 1]) + (if last.Send? then [last.callback] else [])
  }

  /** t was issued, with this callback. */
  ghost predicate Issued(steps: seq<Step>, t: RequestId, callback: Option<Callback>) {
    1 <= t.n <= |Requests(steps)| && Requests(steps)[t.n - 1] == callback
  }

  /** t was issued and something is owed for it. */
  ghost predicate Owed(steps: seq<Step>, t: RequestId) {
    1 <= t.n <= |Requests(steps)| && Owes(Requests(steps)[t.n - 1])
  }

  ghost predicate Done(c: Client, t: RequestId) {
    t in Whos(c.effects)
  }

  ghost predicate Waits(c: Client, t: RequestId) {
    t in c.callbacks || t in c.texts.Values || t in c.docs.Values
  }

  /** The answer files the send under a key at which another one still waits. */
  ghost predicate Clash(c: Client, step: Step) {
    && step.Answer? && step.id in c.callbacks && step.message.Some?
    && var callback := c.callbacks[step.id];
       || (Tracks(callback) && Key(callback.chat, step.message.value) in c.texts)
       || (callback.Document? && Key(callback.chat, step.message.value) in c.docs)
  }

  /** No message id is handed out again while a send waits under it. */
  ghost predicate NoClash(steps: seq<Step>) {
    steps == [] || (NoClash(steps[..|steps| - 1]) && !Clash(After(START, steps[..|steps| - 1]), steps[|steps| - 1]))
  }

  /** The run has issued what the tables hold. */
  ghost predicate Remembers(c: Client, steps: seq<Step>) {
    && (forall t | t in c.callbacks :: Issued(steps, t, Some(c.callbacks[t])))
    && (forall k | k in c.texts :: Issued(steps, c.texts[k], Some(Text(k.chat, true))))
    && (forall k | k in c.docs :: Issued(steps, c.docs[k], Some(Document(k.chat))))
  }

  /** The tables remember what the requests were, and the next number is free. */
  ghost predicate Agrees(c: Client, steps: seq<Step>) {
    c.next == |Requests(steps)| + 1 && Remembers(c, steps)
  }

  lemma RequestsGrow(steps: seq<Step>, t: RequestId, callback: Option<Callback>)
    requires steps != [] && Issued(steps[..|steps| - 1], t, callback)
    ensures Issued(steps, t, callback)
  {}

  lemma NextAgrees(c: Client, steps: seq<Step>)
    requires steps != [] && Agrees(c, steps[..|steps| - 1])
    ensures Agrees(Next(c, steps[|steps| - 1]), steps)
  {
    var before, step := steps[..|steps| - 1], steps[|steps| - 1];
    forall t | t in c.callbacks
      ensures Issued(steps, t, Some(c.callbacks[t]))
    {
      RequestsGrow(steps, t, Some(c.callbacks[t]));
    }
    forall k | k in c.texts ensures Issued(steps, c.texts[k], Some(Text(k.chat, true))) {
      RequestsGrow(steps, c.texts[k], Some(Text(k.chat, true)));
    }
    forall k | k in c.docs ensures Issued(steps, c.docs[k], Some(Document(k.chat))) {
      RequestsGrow(steps, c.docs[k], Some(Document(k.chat)));
    }
    if step.Answer? && step.id in c.callbacks {
      AnswerAgrees(c, step.id, step.message, steps);
    } else if step.Send? {
      SendAgrees(c, step.callback, steps);
    }
  }

  lemma AnswerAgrees(c: Client, id: RequestId, message: Option<int>, steps: seq<Step>)
    requires Remembers(c, steps) && id in c.callbacks
    ensures Remembers(Answered(c, id, c.callbacks[id], message), steps)
  {}

  lemma SendAgrees(c: Client, callback: Option<Callback>, steps: seq<Step>)
    requires Remembers(c, steps) && c.next == |Requests(steps)| && c.next >= 1
    requires Requests(steps)[c.next - 1] == callback
    ensures Remembers(Sent(c, callback), steps)
  {}

  lemma {:induction false} RunAgrees(steps: seq<Step>)
    ensures Agrees(After(START, steps), steps)
  {
    if steps != [] {
      RunAgrees(steps[..|steps| - 1]);
      NextAgrees(After(START, steps[..|steps| - 1]), steps);
    }
  }

  /** Held: still waiting or done. */
  ghost predicate Held(c: Client, t: RequestId) {
    Waits(c, t) || Done(c, t)
  }

  lemma EffectsGrow(c: Client, step: Step)
    ensures c.effects <= Next(c, step).effects && Whos(c.effects) <= Whos(Next(c, step).effects)
  {
    assert forall e | e in c.effects :: e in Next(c, step).effects;
  }

  /** A text send waiting under a key stays unless it is settled or another one is filed under the key. */
  lemma TextStays(c: Client, step: Step, k: Key)
    requires k in c.texts && !Clash(c, step)
    ensures Held(Next(c, step), c.texts[k])
  {
    var r := Next(c, step);
    EffectsGrow(c, step);
    if step.Settle? && step.key == k {
      WhosAppend(c.effects, OnSent(c.texts[k], step.confirmed));
    } else {
      assert k in r.texts && r.texts[k] == c.texts[k];
    }
  }

  lemma DocStays(c: Client, step: Step, k: Key)
    requires k in c.docs && !Clash(c, step)
    ensures Held(Next(c, step), c.docs[k])
  {
    var r := Next(c, step);
    EffectsGrow(c, step);
    if step.Drop? && step.key == k {
      WhosAppend(c.effects, Cleanup(c.docs[k]));
    } else {
      assert k in r.docs && r.docs[k] == c.docs[k];
    }
  }

  lemma CallbackStays(c: Client, step: Step, t: RequestId)
    requires t in c.callbacks && Owes(Some(c.callbacks[t])) && Known(c)
    ensures Held(Next(c, step), t)
  {
    var r := Next(c, step);
    if step.Answer? && step.id == t {
      if step.message.None? {
        WhosAppend(c.effects, OnSent(t, 0));
        WhosAppend(c.effects, Cleanup(t));
      } else {
        var k := Key(c.callbacks[t].chat, step.message.value);
        assert (k in r.texts && r.texts[k] == t) || (k in r.docs && r.docs[k] == t);
      }
    } else {
      assert t in r.callbacks;
    }
  }

  lemma HeldStays(c: Client, steps: seq<Step>, t: RequestId)
    requires steps != [] && Agrees(c, steps[..|steps| - 1]) && Known(c) && !Clash(c, steps[|steps| - 1])
    requires Held(c, t) && Owed(steps[..|steps| - 1], t)
    ensures Held(Next(c, steps[|steps| - 1]), t)
  {
    var step := steps[|steps| - 1];
    if t in c.callbacks {
      CallbackStays(c, step, t);
    } else if t in c.texts.Values {
      var k :| k in c.texts && c.texts[k] == t;
      TextStays(c, step, k);
    } else if t in c.docs.Values {
      var k :| k in c.docs && c.docs[k] == t;
      DocStays(c, step, k);
    } else {
      EffectsGrow(c, step);
    }
  }

  /** What is lost stays lost. */
  lemma LostStays(c: Client, step: Step, t: RequestId)
    requires !Held(c, t) && t.n < c.next
    ensures !Held(Next(c, step), t)
  {
    var r := Next(c, step);
    forall e | e in r.effects ensures e.who != t {
      if e in c.effects { assert e.who in Whos(c.effects); }
    }
    assert t !in r.callbacks;
    forall k | k in r.texts ensures r.texts[k] != t { if k in c.texts { assert c.texts[k] in c.texts.Values; } }
    forall k | k in r.docs ensures r.docs[k] != t { if k in c.docs { assert c.docs[k] in c.docs.Values; } }
  }

  /** A clash loses the send that was waiting. */
  lemma ClashLoses(c: Client, steps: seq<Step>, step: Step) returns (t: RequestId)
    requires Inv(c) && Agrees(c, steps) && Clash(c, step)
    ensures Owed(steps, t) && !Held(Next(c, step), t)
  {
    var k := Key(c.callbacks[step.id].chat, step.message.value);
    var r := Next(c, step);
    if Tracks(c.callbacks[step.id]) {
      t := c.texts[k];
      assert Issued(steps, t, Some(Text(k.chat, true)));
      assert forall l | l in r.texts :: r.texts[l] != t;
    } else {
      t := c.docs[k];
      assert Issued(steps, t, Some(Document(k.chat)));
      assert forall l | l in r.docs :: r.docs[l] != t;
    }
    assert r.effects == c.effects;
  }

  ghost predicate AllHeld(steps: seq<Step>) {
    forall t | Owed(steps, t) :: Held(After(START, steps), t)
  }

  lemma NewIsHeld(c: Client, steps: seq<Step>)
    requires steps != [] && Agrees(c, steps[..|steps| - 1])
    requires steps[|steps| - 1].Send? && Owes(steps[|steps| - 1].callback)
    ensures Held(Next(c, steps[|steps| - 1]), RequestId(|Requests(steps)|))
  {
    assert RequestId(c.next) in Next(c, steps[|steps| - 1]).callbacks;
  }

  lemma KeepsAllHeld(steps: seq<Step>)
    requires steps != [] && AllHeld(steps[..|steps| - 1])
    requires !Clash(After(START, steps[..|steps| - 1]), steps[|steps| - 1])
    ensures AllHeld(steps)
  {
    var before, c := steps[..|steps| - 1], After(START, steps[..|steps| - 1]);
    RunAgrees(before);
    EffectsAtMostOnce(before);
    forall t | Owed(steps, t) ensures Held(After(START, steps), t) {
      if t.n <= |Requests(before)| {
        assert Owed(before, t);
        HeldStays(c, steps, t);
      } else {
        assert t == RequestId(|Requests(steps)|);
        NewIsHeld(c, steps);
      }
    }
  }

  /**
   Conservation: in every run, each tracked send and each temp file is still waiting or was dealt with, exactly when
   no message id was handed out again while a send waited under it.
   */
  lemma {:induction false} ConservedIffNoClash(steps: seq<Step>)
    ensures AllHeld(steps) <==> NoClash(steps)
  {
    if steps != [] {
      var before := steps[..|steps| - 1];
      var c, step := After(START, before), steps[|steps| - 1];
      ConservedIffNoClash(before);
      RunAgrees(before);
      EffectsAtMostOnce(before);
      if !NoClash(before) {
        var t :| Owed(before, t) && !Held(c, t);
        assert Owed(steps, t);
        LostStays(c, step, t);
      } else if Clash(c, step) {
        var t := ClashLoses(c, before, step);
        assert Owed(steps, t);
      } else {
        KeepsAllHeld(steps);
      }
    }
  }

  // ---------------------------------------------------------------- what completes a send

  /** The request can wait at most under this key. */
  ghost predicate OnlyAt(c: Client, t: RequestId, key: Key) {
    && t.n < c.next && t !in c.callbacks
    && (forall k | k in c.texts && c.texts[k] == t :: k == key)
    && (forall k | k in c.docs && c.docs[k] == t :: k == key)
  }

  lemma OnlyAtStays(c: Client, step: Step, t: RequestId, key: Key)
    requires OnlyAt(c, t, key)
    ensures OnlyAt(Next(c, step), t, key)
  {}

  lemma {:induction false} OnlyAtUntil(steps: seq<Step>, j: nat, k: nat, t: RequestId, key: Key)
    requires j <= k <= |steps| && OnlyAt(After(START, steps[..j]), t, key)
    ensures OnlyAt(After(START, steps[..k]), t, key)
    decreases k
  {
    if j < k {
      OnlyAtUntil(steps, j, k - 1, t, key);
      assert steps[..k][..k - 1] == steps[..k - 1];
      OnlyAtStays(After(START, steps[..k - 1]), steps[k - 1], t, key);
    }
  }

  /** Gone from its key means gone from all tables. */
  ghost predicate Gone(c: Client, t: RequestId) {
    t.n < c.next && !Waits(c, t)
  }

  lemma {:induction false} GoneFrom(steps: seq<Step>, j: nat, t: RequestId)
    requires j <= |steps| && Gone(After(START, steps[..j]), t)
    ensures Gone(After(START, steps), t)
  {
    if j < |steps| {
      var before := steps[..|steps| - 1];
      assert before[..j] == steps[..j];
      GoneFrom(before, j, t);
      var c := After(START, before);
      var r := Next(c, steps[|steps| - 1]);
      forall k | k in r.texts ensures r.texts[k] != t { if k in c.texts { assert c.texts[k] in c.texts.Values; } }
      forall k | k in r.docs ensures r.docs[k] != t { if k in c.docs { assert c.docs[k] in c.docs.Values; } }
    } else {
      assert steps[..j] == steps;
    }
  }

  /** The answer is the first one of the request. */
  ghost predicate FirstAnswer(steps: seq<Step>, j: nat, t: RequestId) {
    j < |steps| && steps[j].Answer? && steps[j].id == t && t in After(START, steps[..j]).callbacks
  }

  /** It takes the request out of the callbacks, and files it under one key at most. */
  lemma AnswerFiles(steps: seq<Step>, j: nat, t: RequestId, chat: int)
    requires FirstAnswer(steps, j, t) && Issued(steps[..j], t, Some(Text(chat, true)))
    ensures steps[j].message.None? ==> Gone(After(START, steps[..j + 1]), t)
    ensures steps[j].message.Some? ==> OnlyAt(After(START, steps[..j + 1]), t, Key(chat, steps[j].message.value))
  {
    assert steps[..j + 1][..j] == steps[..j];
    RunAgrees(steps[..j]);
    EffectsAtMostOnce(steps[..j]);
  }

  /** The outcome takes it out of there. */
  lemma OutcomeEnds(steps: seq<Step>, k: nat, t: RequestId, key: Key)
    requires k < |steps| && steps[k].Settle? && steps[k].key == key
    requires OnlyAt(After(START, steps[..k]), t, key) && Issued(steps[..k], t, Some(Text(key.chat, true)))
    ensures Gone(After(START, steps[..k + 1]), t)
  {
    assert steps[..k + 1][..k] == steps[..k];
    RunAgrees(steps[..k]);
    var c := After(START, steps[..k]);
    assert key in c.docs ==> c.docs[key] != t;
  }

  /** The request was answered with an error, or answered and then its outcome arrived. */
  ghost predicate Completed(steps: seq<Step>, t: RequestId, chat: int, j: nat, k: nat) {
    && FirstAnswer(steps, j, t) && Issued(steps[..j], t, Some(Text(chat, true)))
    && (steps[j].message.Some? ==>
          j < k < |steps| && steps[k].Settle? && steps[k].key == Key(chat, steps[j].message.value))
  }

  /** A completed send waits no more. */
  lemma CompletedIsGone(steps: seq<Step>, t: RequestId, chat: int, j: nat, k: nat)
    requires Completed(steps, t, chat, j, k)
    ensures Gone(After(START, steps), t)
  {
    AnswerFiles(steps, j, t, chat);
    if steps[j].message.None? {
      GoneFrom(steps, j + 1, t);
    } else {
      var key := Key(chat, steps[j].message.value);
      OnlyAtUntil(steps, j + 1, k, t, key);
      IssuedLater(steps, j, k, t, Some(Text(chat, true)));
      OutcomeEnds(steps, k, t, key);
      GoneFrom(steps, k + 1, t);
    }
  }

  lemma {:induction false} IssuedLater(steps: seq<Step>, j: nat, k: nat, t: RequestId, callback: Option<Callback>)
    requires j <= k <= |steps| && Issued(steps[..j], t, callback)
    ensures Issued(steps[..k], t, callback)
    decreases k
  {
    if j < k {
      IssuedLater(steps, j, k - 1, t, callback);
      assert steps[..k][..|steps[..k]| - 1] == steps[..k - 1];
      RequestsGrow(steps[..k], t, callback);
    }
  }

  /** Without clashes it has been called, exactly once. */
  lemma CompletedIsDone(steps: seq<Step>, t: RequestId, chat: int, j: nat, k: nat)
    requires NoClash(steps) && Completed(steps, t, chat, j, k)
    ensures Done(After(START, steps), t) && AtMostOnce(After(START, steps).effects)
  {
    CompletedIsGone(steps, t, chat, j, k);
    ConservedIffNoClash(steps);
    EffectsAtMostOnce(steps);
    IssuedLater(steps, j, |steps|, t, Some(Text(chat, true)));
    assert steps[..|steps|] == steps;
    assert Owed(steps, t);
  }

  // ---------------------------------------------------------------- what a call reports

  /** The step reports an outcome for the message under the key. */
  predicate IsOutcome(step: Step, key: Key) {
    step.Settle? && step.key == key
  }

  /** The send was answered at j with the message under the key, and no outcome of that message came since. */
  ghost predicate WaitingSince(steps: seq<Step>, t: RequestId, key: Key, j: nat) {
    && FirstAnswer(steps, j, t) && Issued(steps[..j], t, Some(Text(key.chat, true))) && steps[j].message == Some(key.id)
    && forall l | j < l < |steps| :: !IsOutcome(steps[l], key)
  }

  /**
   The send was answered at j with an error, reported as 0, or with a message whose first outcome, at k, is reported.
   */
  ghost predicate Reports(steps: seq<Step>, t: RequestId, id: int, chat: int, j: nat, k: nat) {
    && Completed(steps, t, chat, j, k)
    && if steps[j].message.None? then id == 0
       else
         && id == steps[k].confirmed
         && forall l | j < l < k :: !IsOutcome(steps[l], Key(chat, steps[j].message.value))
  }

  lemma FirstAnswerLater(steps: seq<Step>, j: nat, t: RequestId)
    requires steps != [] && FirstAnswer(steps[..|steps| - 1], j, t)
    ensures FirstAnswer(steps, j, t) && steps[..|steps| - 1][..j] == steps[..j]
  {
    assert steps[..|steps| - 1][..j] == steps[..j];
  }

  lemma ReportsLater(steps: seq<Step>, t: RequestId, id: int, chat: int, j: nat, k: nat)
    requires steps != [] && Reports(steps[..|steps| - 1], t, id, chat, j, k)
    ensures Reports(steps, t, id, chat, j, k)
  {
    FirstAnswerLater(steps, j, t);
  }

  lemma {:induction false} WaitingIsFiled(steps: seq<Step>, key: Key) returns (j: nat)
    requires key in After(START, steps).texts
    ensures WaitingSince(steps, After(START, steps).texts[key], key, j)
  {
    var before, step := steps[..|steps| - 1], steps[|steps| - 1];
    var c, t := After(START, before), After(START, steps).texts[key];
    if key in c.texts && c.texts[key] == t {
      j := WaitingIsFiled(before, key);
      FirstAnswerLater(steps, j, t);
    } else {
      RunAgrees(before);
      j := |steps| - 1;
      assert step == Answer(t, Some(key.id)) && c.callbacks[t] == Text(key.chat, true);
    }
  }

  lemma NewCall(c: Client, step: Step, e: Effect)
    requires e.OnSent? && e in Next(c, step).effects && e !in c.effects
    ensures (step.Answer? && step.id == e.who && step.message.None? && e.id == 0)
         || (step.Settle? && step.key in c.texts && c.texts[step.key] == e.who && step.confirmed == e.id)
  {}

  lemma NewCallReports(steps: seq<Step>, t: RequestId, id: int) returns (chat: int, j: nat, k: nat)
    requires steps != [] && OnSent(t, id) in After(START, steps).effects
    requires OnSent(t, id) !in After(START, steps[..|steps| - 1]).effects
    ensures Reports(steps, t, id, chat, j, k)
  {
    var before, step := steps[..|steps| - 1], steps[|steps| - 1];
    var c := After(START, before);
    NewCall(c, step, OnSent(t, id));
    k := |steps| - 1;
    if step.Settle? {
      j := WaitingIsFiled(before, step.key);
      FirstAnswerLater(steps, j, t);
      chat := step.key.chat;
    } else {
      RunAgrees(before);
      j, chat := k, c.callbacks[t].chat;
    }
  }

  /**
   Every call of onSent reports what happened to its own message after the answer: 0 for an error, else its first
   outcome.
   */
  lemma {:induction false} CallsReportOutcomes(steps: seq<Step>, t: RequestId, id: int)
    returns (chat: int, j: nat, k: nat)
    requires OnSent(t, id) in After(START, steps).effects
    ensures Reports(steps, t, id, chat, j, k)
  {
    var before := steps[..|steps| - 1];
    if OnSent(t, id) in After(START, before).effects {
      chat, j, k := CallsReportOutcomes(before, t, id);
      ReportsLater(steps, t, id, chat, j, k);
    } else {
      chat, j, k := NewCallReports(steps, t, id);
    }
  }

  /** Calls are for text sends and removals for documents. */
  lemma {:induction false} EffectsFitRequests(steps: seq<Step>, e: Effect)
    requires e in After(START, steps).effects
    ensures 1 <= e.who.n <= |Requests(steps)| && Requests(steps)[e.who.n - 1].Some?
    ensures e.OnSent? <==> Requests(steps)[e.who.n - 1].value.Text?
  {
    if steps != [] {
      var before, step := steps[..|steps| - 1], steps[|steps| - 1];
      var c := After(START, before);
      if e in c.effects {
        EffectsFitRequests(before, e);
      } else {
        RunAgrees(before);
        assert step.Settle? ==> step.key in c.texts && e == OnSent(c.texts[step.key], step.confirmed);
        assert step.Drop? ==> step.key in c.docs && e == Cleanup(c.docs[step.key]);
      }
    }
  }

  /**
   Without clashes a tracked text send has been called exactly when it was answered and then, unless by an error, had
   its outcome.
   */
  lemma DoneIffCompleted(steps: seq<Step>, t: RequestId, chat: int)
    requires NoClash(steps) && Issued(steps, t, Some(Text(chat, true)))
    ensures Done(After(START, steps), t) <==> exists j, k :: Completed(steps, t, chat, j, k)
  {
    forall j, k | Completed(steps, t, chat, j, k) ensures Done(After(START, steps), t) {
      CompletedIsDone(steps, t, chat, j, k);
    }
    if Done(After(START, steps), t) {
      var e :| e in After(START, steps).effects && e.who == t;
      EffectsFitRequests(steps, e);
      var chat', j, k := CallsReportOutcomes(steps, t, e.id);
      IssuedLater(steps, j, |steps|, t, Some(Text(chat', true)));
      assert steps[..|steps|] == steps;
    }
  }

  /** And then the call reported 0 for an error, else the first outcome after the answer. */
  lemma CalledIffReported(steps: seq<Step>, t: RequestId, id: int, chat: int)
    requires NoClash(steps) && Issued(steps, t, Some(Text(chat, true)))
    ensures OnSent(t, id) in After(START, steps).effects <==> exists j, k :: Reports(steps, t, id, chat, j, k)
  {
    if OnSent(t, id) in After(START, steps).effects {
      var chat', j, k := CallsReportOutcomes(steps, t, id);
      IssuedLater(steps, j, |steps|, t, Some(Text(chat', true)));
      assert steps[..|steps|] == steps;
    }
    if j, k :| Reports(steps, t, id, chat, j, k) {
      CompletedIsDone(steps, t, chat, j, k);
      var e :| e in After(START, steps).effects && e.who == t;
      EffectsFitRequests(steps, e);
      var chat', j', k' := CallsReportOutcomes(steps, t, e.id);
      IssuedLater(steps, j', |steps|, t, Some(Text(chat', true)));
      assert steps[..|steps|] == steps;
      ReportsOnce(steps, t, chat, id, j, k, e.id, j', k');
    }
  }

  /** There is one first answer, and it has one first outcome. */
  lemma ReportsOnce(steps: seq<Step>, t: RequestId, chat: int, id: int, j: nat, k: nat, id': int, j': nat, k': nat)
    requires Reports(steps, t, id, chat, j, k) && Reports(steps, t, id', chat, j', k')
    ensures id == id'
  {
    if j < j' { AnswerIsLast(steps, t, chat, j, j'); }
    if j' < j { AnswerIsLast(steps, t, chat, j', j); }
  }

  /** After its first answer a request is not in the callbacks. */
  lemma AnswerIsLast(steps: seq<Step>, t: RequestId, chat: int, j: nat, l: nat)
    requires FirstAnswer(steps, j, t) && Issued(steps[..j], t, Some(Text(chat, true))) && j < l <= |steps|
    ensures t !in After(START, steps[..l]).callbacks
  {
    AnswerFiles(steps, j, t, chat);
    assert steps[..l][..j + 1] == steps[..j + 1];
    if steps[j].message.None? {
      GoneFrom(steps[..l], j + 1, t);
    } else {
      OnlyAtUntil(steps, j + 1, l, t, Key(chat, steps[j].message.value));
    }
  }
}
