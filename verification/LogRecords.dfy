/**
 The records of the auto-moderator's log: JsonFormatter::format of auto-mod/src/logger.cpp
 and the decision payload of auto-mod/src/automoderator.cpp, with a reader for flat objects.
 */
module LogRecords {
  import opened Bytes
  import opened Wrappers
  import opened Numbers
  import opened Json
  import Clipping
  import Moderator
  import Utf8

  // ---------------------------------------------------------------- flat objects

  datatype Value = Text(s: Bytes) | Number(n: int) | Flag(b: bool)

  datatype Member = Member(name: Bytes, value: Value)

  const OPEN: Byte := 0x7B
  const CLOSE: Byte := 0x7D
  const COLON: Byte := 0x3A
  const COMMA: Byte := 0x2C
  const NEWLINE: Byte := 0x0A
  const SEPARATOR: Byte := 0x1E

  const TRUE: Bytes := [0x74, 0x72, 0x75, 0x65]
  const FALSE: Bytes := [0x66, 0x61, 0x6C, 0x73, 0x65]

  function WriteValue(v: Value): Bytes {
    match v
    case Text(s) => Quoted(s)
    case Number(n) => Decimal(n)
    case Flag(b) => if b then TRUE else FALSE
  }

  function WriteMember(m: Member): Bytes {
    Quoted(m.name) + ([COLON] + WriteValue(m.value))
  }

  function WriteMembers(ms: seq<Member>): Bytes
    requires ms != []
  {
    if |ms| == 1 then WriteMember(ms[0]) else WriteMember(ms[0]) + ([COMMA] + WriteMembers(ms[1..]))
  }

  function WriteObject(ms: seq<Member>): Bytes
    requires ms != []
  {
    [OPEN] + WriteMembers(ms) + [CLOSE]
  }

  function ReadValue(s: Bytes): (r: Option<(Value, Bytes)>)
    ensures r.Some? ==> |r.value.1| < |s|
  {
    if s != [] && s[0] == QUOTE then
      var t := ReadString(s);
      if t.None? then None else Some((Text(t.value.0), t.value.1))
    else if TRUE <= s then Some((Flag(true), s[|TRUE|..]))
    else if FALSE <= s then Some((Flag(false), s[|FALSE|..]))
    else
      var n := ReadInt(s);
      if n.None? then None else Some((Number(n.value.0), n.value.1))
  }

  function ReadMember(s: Bytes): (r: Option<(Member, Bytes)>)
    ensures r.Some? ==> |r.value.1| < |s|
  {
    var name := ReadString(s);
    if name.None? || name.value.1 == [] || name.value.1[0] != COLON then None
    else
      var v := ReadValue(name.value.1[1..]);
      if v.None? then None else Some((Member(name.value.0, v.value.0), v.value.1))
  }

  function ReadMembers(s: Bytes): Option<(seq<Member>, Bytes)>
    decreases |s|
  {
    var m := ReadMember(s);
    if m.None? || m.value.1 == [] then None
    else if m.value.1[0] == CLOSE then Some(([m.value.0], m.value.1[1..]))
    else if m.value.1[0] != COMMA then None
    else
      var ms := ReadMembers(m.value.1[1..]);
      if ms.None? then None else Some(([m.value.0] + ms.value.0, ms.value.1))
  }

  function ReadObject(s: Bytes): Option<(seq<Member>, Bytes)> {
    if s != [] && s[0] == OPEN then ReadMembers(s[1..]) else None
  }

  lemma ValueReadsBack(v: Value, rest: Bytes)
    requires rest != [] && !IsDigit(rest[0])
    ensures ReadValue(WriteValue(v) + rest) == Some((v, rest))
  {
    var s := WriteValue(v) + rest;
    assert s[0] == WriteValue(v)[0];
    match v
    case Text(t) =>
      QuotedReadsBack(t, rest);
    case Number(n) =>
      IntReadsBack(n, rest);
      assert s[0] == 0x2D || IsDigit(s[0]);
      assert TRUE[0] == 0x74 && FALSE[0] == 0x66;
    case Flag(b) =>
      var w := WriteValue(v);
      assert s[|w|..] == rest && w <= s;
      assert TRUE[0] != FALSE[0];
  }

  lemma MemberFrom(s: Bytes, m: Member, tail: Bytes, rest: Bytes)
    requires ReadString(s) == Some((m.name, [COLON] + tail)) && ReadValue(tail) == Some((m.value, rest))
    ensures ReadMember(s) == Some((m, rest))
  {
    Head(COLON, tail);
  }

  lemma MemberReadsBack(m: Member, rest: Bytes)
    requires rest != [] && !IsDigit(rest[0])
    ensures ReadMember(WriteMember(m) + rest) == Some((m, rest))
  {
    var v := WriteValue(m.value);
    Append3(Quoted(m.name), [COLON] + v, rest);
    Append3([COLON], v, rest);
    QuotedReadsBack(m.name, [COLON] + (v + rest));
    ValueReadsBack(m.value, rest);
    MemberFrom(WriteMember(m) + rest, m, v + rest, rest);
  }

  lemma LastMemberFrom(s: Bytes, m: Member, rest: Bytes)
    requires ReadMember(s) == Some((m, [CLOSE] + rest))
    ensures ReadMembers(s) == Some(([m], rest))
  {
    Head(CLOSE, rest);
  }

  lemma MembersFrom(s: Bytes, m: Member, tail: Bytes, ms: seq<Member>, rest: Bytes)
    requires ReadMember(s) == Some((m, [COMMA] + tail)) && ReadMembers(tail) == Some((ms, rest))
    ensures ReadMembers(s) == Some(([m] + ms, rest))
  {
    Head(COMMA, tail);
  }

  lemma {:induction false} MembersReadBack(ms: seq<Member>, rest: Bytes)
    requires ms != []
    ensures ReadMembers(WriteMembers(ms) + ([CLOSE] + rest)) == Some((ms, rest))
  {
    var end := [CLOSE] + rest;
    var s := WriteMembers(ms) + end;
    if |ms| == 1 {
      MemberReadsBack(ms[0], end);
      LastMemberFrom(s, ms[0], rest);
      assert ms == [ms[0]];
    } else {
      var more := WriteMembers(ms[1..]);
      Append3(WriteMember(ms[0]), [COMMA] + more, end);
      Append3([COMMA], more, end);
      MemberReadsBack(ms[0], [COMMA] + (more + end));
      MembersReadBack(ms[1..], rest);
      MembersFrom(s, ms[0], more + end, ms[1..], rest);
      assert ms == [ms[0]] + ms[1..];
    }
  }

  /** A written object is read back member by member, whatever the strings hold. */
  lemma ObjectReadsBack(ms: seq<Member>, rest: Bytes)
    requires ms != []
    ensures ReadObject(WriteObject(ms) + rest) == Some((ms, rest))
  {
    var w := WriteMembers(ms);
    MembersReadBack(ms, rest);
    Append3([OPEN], w, [CLOSE]);
    Append3([OPEN] + w, [CLOSE], rest);
    Append3([OPEN], w, [CLOSE] + rest);
    Head(OPEN, w + ([CLOSE] + rest));
  }

  lemma {:induction false} MembersJoin(a: seq<Member>, b: seq<Member>)
    requires a != [] && b != []
    ensures WriteMembers(a + b) == WriteMembers(a) + ([COMMA] + WriteMembers(b))
  {
    if |a| == 1 {
      assert (a + b)[1..] == b;
    } else {
      assert (a + b)[1..] == a[1..] + b;
      MembersJoin(a[1..], b);
      var x, y, z := WriteMember(a[0]), WriteMembers(a[1..]), WriteMembers(b);
      assert x + ([COMMA] + (y + ([COMMA] + z))) == x + ([COMMA] + y) + ([COMMA] + z);
    }
  }

  // ---------------------------------------------------------------- the formatter

  /** Text that needs no escaping. */
  predicate IsPlain(s: Bytes) {
    forall b | b in s :: b >= 0x20 && b != QUOTE && b != BACKSLASH
  }

  lemma {:induction false} PlainIsUnescaped(s: Bytes)
    requires IsPlain(s)
    ensures Escape(s) == s
  {
    if s != [] {
      assert s[0] in s && forall b | b in s[1..] :: b in s;
      PlainIsUnescaped(s[1..]);
    }
  }

  /** A name or value of the source, quoted without escaping. */
  function Raw(s: Bytes): Bytes {
    [QUOTE] + s + [QUOTE]
  }

  function Field(name: Bytes, value: Bytes): Bytes {
    Raw(name) + ([COLON] + value)
  }

  const TS: Plain := [0x74, 0x73]
  const LEVEL: Plain := [0x6C, 0x65, 0x76, 0x65, 0x6C]
  const LOGGER: Plain := [0x6C, 0x6F, 0x67, 0x67, 0x65, 0x72]
  const MESSAGE: Plain := [0x6D, 0x65, 0x73, 0x73, 0x61, 0x67, 0x65]

  predicate IsStructured(payload: Bytes) {
    payload != [] && payload[0] == SEPARATOR
  }

  function Header(ts: Bytes, level: Bytes, logger: Bytes): Bytes {
    [OPEN] + Field(TS, Raw(ts)) + [COMMA] + Field(LEVEL, Raw(level)) + [COMMA] + Field(LOGGER, Raw(logger)) + [COMMA]
  }

  function Body(payload: Bytes): Bytes {
    if IsStructured(payload) then payload[1..] else Field(MESSAGE, Quoted(payload))
  }

  function Record(ts: Bytes, level: Bytes, logger: Bytes, payload: Bytes): Bytes {
    Header(ts, level, logger) + Body(payload) + [CLOSE, NEWLINE]
  }

  /** JsonFormatter::format; the time stamp and the level are given as text. */
  method Format(ts: Bytes, level: Bytes, logger: Bytes, payload: Bytes) returns (dest: Bytes)
    ensures dest == Record(ts, level, logger, payload)
  {
    dest := [OPEN] + Field(TS, Raw(ts));
    dest := dest + [COMMA] + Field(LEVEL, Raw(level));
    dest := dest + [COMMA] + Field(LOGGER, Raw(logger)) + [COMMA];
    if payload != [] && payload[0] == SEPARATOR {
      dest := dest + payload[1..];
    } else {
      Append3(dest, Raw(MESSAGE) + [COLON], Quoted(payload));
      dest := AppendEscaped(payload, dest + (Raw(MESSAGE) + [COLON]));
      Append3(Raw(MESSAGE), [COLON], Quoted(payload));
    }
    dest := dest + [CLOSE, NEWLINE];
  }

  predicate NoNewline(s: Bytes) {
    forall b | b in s :: b != NEWLINE
  }

  /** Exactly one newline, as the last byte. */
  predicate IsOneLine(s: Bytes) {
    s != [] && s[|s| - 1] == NEWLINE && NoNewline(s[..|s| - 1])
  }

  lemma NoNewlineJoin(a: Bytes, b: Bytes)
    ensures NoNewline(a + b) <==> NoNewline(a) && NoNewline(b)
  {
    assert forall x | x in a :: x in a + b;
    assert forall x | x in b :: x in a + b;
  }

  lemma FieldHasNoNewline(name: Bytes, value: Bytes)
    requires NoNewline(name) && NoNewline(value)
    ensures NoNewline(Field(name, value)) && NoNewline(Raw(value))
  {}

  lemma HeaderHasNoNewline(ts: Bytes, level: Bytes, logger: Bytes)
    requires NoNewline(ts) && NoNewline(level) && NoNewline(logger)
    ensures NoNewline(Header(ts, level, logger))
  {
    assert NoNewline(TS) && NoNewline(LEVEL) && NoNewline(LOGGER);
    FieldHasNoNewline(ts, ts);
    FieldHasNoNewline(level, level);
    FieldHasNoNewline(logger, logger);
    FieldHasNoNewline(TS, Raw(ts));
    FieldHasNoNewline(LEVEL, Raw(level));
    FieldHasNoNewline(LOGGER, Raw(logger));
  }

  lemma MessageHasNoNewline(payload: Bytes)
    ensures NoNewline(Field(MESSAGE, Quoted(payload)))
  {
    EscapedIsPrintable(payload);
    assert NoNewline(Quoted(payload)) && NoNewline(MESSAGE);
    FieldHasNoNewline(MESSAGE, Quoted(payload));
  }

  /** A record is one line exactly when its payload is unstructured, or structured and free of newlines. */
  lemma OneLineIff(ts: Bytes, level: Bytes, logger: Bytes, payload: Bytes)
    requires NoNewline(ts) && NoNewline(level) && NoNewline(logger)
    ensures IsOneLine(Record(ts, level, logger, payload)) <==> !IsStructured(payload) || NoNewline(payload[1..])
  {
    var head, body := Header(ts, level, logger), Body(payload);
    HeaderHasNoNewline(ts, level, logger);
    if !IsStructured(payload) { MessageHasNoNewline(payload); }
    NoNewlineJoin(head, body);
    NoNewlineJoin(head + body, [CLOSE]);
    EndsInNewline(head + body);
  }

  lemma EndsInNewline(s: Bytes)
    ensures IsOneLine(s + [CLOSE, NEWLINE]) <==> NoNewline(s + [CLOSE])
  {
    var r := s + [CLOSE, NEWLINE];
    assert r[..|r| - 1] == s + [CLOSE];
  }

  // ---------------------------------------------------------------- whole records read back

  function HeaderMembers(ts: Bytes, level: Bytes, logger: Bytes): seq<Member> {
    [Member(TS, Text(ts)), Member(LEVEL, Text(level)), Member(LOGGER, Text(logger))]
  }

  lemma FieldIsMember(name: Bytes, v: Value)
    requires IsPlain(name)
    ensures Field(name, WriteValue(v)) == WriteMember(Member(name, v))
  {
    PlainIsUnescaped(name);
  }

  lemma HeaderIsMembers(ts: Bytes, level: Bytes, logger: Bytes)
    requires IsPlain(ts) && IsPlain(level) && IsPlain(logger)
    ensures Header(ts, level, logger) == [OPEN] + (WriteMembers(HeaderMembers(ts, level, logger)) + [COMMA])
  {
    PlainIsUnescaped(ts);
    PlainIsUnescaped(level);
    PlainIsUnescaped(logger);
    FieldIsMember(TS, Text(ts));
    FieldIsMember(LEVEL, Text(level));
    FieldIsMember(LOGGER, Text(logger));
    ThreeMembers(Member(TS, Text(ts)), Member(LEVEL, Text(level)), Member(LOGGER, Text(logger)));
  }

  lemma ThreeMembers(a: Member, b: Member, c: Member)
    ensures [OPEN] + (WriteMembers([a, b, c]) + [COMMA])
         == [OPEN] + WriteMember(a) + [COMMA] + WriteMember(b) + [COMMA] + WriteMember(c) + [COMMA]
  {
    assert [a, b, c][1..] == [b, c] && [b, c][1..] == [c];
    var x, y, z := WriteMember(a), WriteMember(b), WriteMember(c);
    assert WriteMembers([c]) == z && WriteMembers([b, c]) == y + ([COMMA] + z);
    Flatten(x, y, z);
  }

  lemma Flatten(x: Bytes, y: Bytes, z: Bytes)
    ensures [OPEN] + (x + ([COMMA] + (y + ([COMMA] + z))) + [COMMA]) == [OPEN] + x + [COMMA] + y + [COMMA] + z + [COMMA]
  {}

  /** A record whose body is written members is one object and a newline, and reads back as header and members. */
  lemma RecordReadsBack(ts: Bytes, level: Bytes, logger: Bytes, payload: Bytes, ms: seq<Member>)
    requires IsPlain(ts) && IsPlain(level) && IsPlain(logger) && ms != [] && Body(payload) == WriteMembers(ms)
    ensures ReadObject(Record(ts, level, logger, payload)) == Some((HeaderMembers(ts, level, logger) + ms, [NEWLINE]))
  {
    var head := HeaderMembers(ts, level, logger);
    HeaderIsMembers(ts, level, logger);
    MembersJoin(head, ms);
    Regroup(WriteMembers(head), WriteMembers(ms));
    ObjectReadsBack(head + ms, [NEWLINE]);
  }

  lemma Regroup(h: Bytes, b: Bytes)
    ensures [OPEN] + (h + [COMMA]) + b + [CLOSE, NEWLINE] == [OPEN] + (h + ([COMMA] + b)) + [CLOSE] + [NEWLINE]
  {}

  /** A plain log message is recovered byte for byte, whatever it holds. */
  lemma MessageReadsBack(ts: Bytes, level: Bytes, logger: Bytes, payload: Bytes)
    requires IsPlain(ts) && IsPlain(level) && IsPlain(logger) && !IsStructured(payload)
    ensures ReadObject(Record(ts, level, logger, payload))
         == Some(([Member(TS, Text(ts)), Member(LEVEL, Text(level)), Member(LOGGER, Text(logger)),
                   Member(MESSAGE, Text(payload))], [NEWLINE]))
  {
    FieldIsMember(MESSAGE, Text(payload));
    RecordReadsBack(ts, level, logger, payload, [Member(MESSAGE, Text(payload))]);
    FourthMember(Member(TS, Text(ts)), Member(LEVEL, Text(level)), Member(LOGGER, Text(logger)),
      Member(MESSAGE, Text(payload)));
  }

  lemma FourthMember(a: Member, b: Member, c: Member, d: Member)
    ensures [a, b, c] + [d] == [a, b, c, d]
  {}

  // ---------------------------------------------------------------- moderation decisions

  predicate IsAscii(s: Bytes) {
    forall b | b in s :: b < 0x80
  }

  /** Names and words of the source: ASCII that needs no escaping. */
  type Plain = s: Bytes | IsPlain(s) && IsAscii(s) witness []

  lemma PlainIsWellFormed(s: Plain)
    ensures Utf8.WellFormed(s)
  {
    Utf8.AsciiIsWellFormed(s);
  }

  const EVENT: Plain := [0x65, 0x76, 0x65, 0x6E, 0x74]  // event
  // moderation_decision
  const MODERATION_DECISION: Plain := [0x6D, 0x6F, 0x64, 0x65, 0x72, 0x61, 0x74, 0x69, 0x6F, 0x6E, 0x5F, 0x64, 0x65,
    0x63, 0x69, 0x73, 0x69, 0x6F, 0x6E]
  const CHAT_ID: Plain := [0x63, 0x68, 0x61, 0x74, 0x5F, 0x69, 0x64]  // chat_id
  const USER_ID: Plain := [0x75, 0x73, 0x65, 0x72, 0x5F, 0x69, 0x64]  // user_id
  const ACTION: Plain := [0x61, 0x63, 0x74, 0x69, 0x6F, 0x6E]  // action
  // delete_message
  const DELETE_MESSAGE: Plain := [0x64, 0x65, 0x6C, 0x65, 0x74, 0x65, 0x5F, 0x6D, 0x65, 0x73, 0x73, 0x61, 0x67, 0x65]
  // message_preview
  const MESSAGE_PREVIEW: Plain := [0x6D, 0x65, 0x73, 0x73, 0x61, 0x67, 0x65, 0x5F, 0x70, 0x72, 0x65, 0x76, 0x69, 0x65,
    0x77]
  // matched_pattern
  const MATCHED_PATTERN: Plain := [0x6D, 0x61, 0x74, 0x63, 0x68, 0x65, 0x64, 0x5F, 0x70, 0x61, 0x74, 0x74, 0x65, 0x72,
    0x6E]
  const SKIP_REASON: Plain := [0x73, 0x6B, 0x69, 0x70, 0x5F, 0x72, 0x65, 0x61, 0x73, 0x6F, 0x6E]  // skip_reason
  const ALLOW: Plain := [0x41, 0x6C, 0x6C, 0x6F, 0x77]  // Allow
  // MuteTemporary
  const MUTE_TEMPORARY: Plain := [0x4D, 0x75, 0x74, 0x65, 0x54, 0x65, 0x6D, 0x70, 0x6F, 0x72, 0x61, 0x72, 0x79]
  // MutePermanent
  const MUTE_PERMANENT: Plain := [0x4D, 0x75, 0x74, 0x65, 0x50, 0x65, 0x72, 0x6D, 0x61, 0x6E, 0x65, 0x6E, 0x74]

  /** action_type_to_string */
  function ActionName(kind: Moderator.ActionType): Plain {
    match kind
    case Allow => ALLOW
    case MuteTemporary => MUTE_TEMPORARY
    case MutePermanent => MUTE_PERMANENT
  }

  function With(ms: seq<Member>, name: Bytes, v: Value): (r: seq<Member>)
    ensures r != []
  {
    ms + [Member(name, v)]
  }

  /** The members every decision has. */
  function DecisionStart(chat: int, user: int, text: Bytes, action: Moderator.Action): (ms: seq<Member>)
    ensures ms != []
  {
    var ids := With(With([Member(EVENT, Text(MODERATION_DECISION))], CHAT_ID, Number(chat)), USER_ID, Number(user));
    var verdict := With(With(ids, ACTION, Text(ActionName(action.kind))), DELETE_MESSAGE, Flag(action.deleteMessage));
    With(verdict, MESSAGE_PREVIEW, Text(Clipping.Clip(text, 50)))
  }

  /** What a decision record says. */
  function DecisionMembers(chat: int, user: int, text: Bytes, action: Moderator.Action, pattern: Bytes,
                           skip: Bytes): (ms: seq<Member>)
    ensures ms != []
  {
    var start := DecisionStart(chat, user, text, action);
    var matched := if pattern != [] then With(start, MATCHED_PATTERN, Text(pattern)) else start;
    if skip != [] then With(matched, SKIP_REASON, Text(skip)) else matched
  }

  /** The payload holds these members so far. */
  ghost predicate IsWritten(payload: Bytes, ms: seq<Member>) {
    ms != [] && payload == [SEPARATOR] + WriteMembers(ms)
  }

  /** One more member behind those written so far. */
  method Append(payload: Bytes, name: Plain, value: Bytes, ghost ms: seq<Member>, ghost v: Value) returns (r: Bytes)
    requires IsWritten(payload, ms) && value == WriteValue(v)
    ensures IsWritten(r, With(ms, name, v))
  {
    FieldIsMember(name, v);
    r := payload + [COMMA] + Field(name, value);
    var w := Field(name, value);
    MembersJoin(ms, [Member(name, v)]);
    Append3(payload, [COMMA], w);
    Append3([SEPARATOR], WriteMembers(ms), [COMMA] + w);
  }

  /** A quoted value that needs no escaping is written as it is. */
  lemma RawIsQuoted(s: Bytes)
    requires IsPlain(s)
    ensures Raw(s) == WriteValue(Text(s))
  {
    PlainIsUnescaped(s);
  }

  method LogStart(chat: int, user: int, text: Bytes, action: Moderator.Action) returns (payload: Bytes)
    ensures IsWritten(payload, DecisionStart(chat, user, text, action))
  {
    var name := ActionName(action.kind);
    RawIsQuoted(MODERATION_DECISION);
    FieldIsMember(EVENT, Text(MODERATION_DECISION));
    RawIsQuoted(name);
    payload := [SEPARATOR] + Field(EVENT, Raw(MODERATION_DECISION));
    ghost var event := [Member(EVENT, Text(MODERATION_DECISION))];
    payload := Append(payload, CHAT_ID, Decimal(chat), event, Number(chat));
    ghost var named := With(event, CHAT_ID, Number(chat));
    payload := Append(payload, USER_ID, Decimal(user), named, Number(user));
    ghost var ids := With(named, USER_ID, Number(user));
    payload := Append(payload, ACTION, Raw(name), ids, Text(name));
    ghost var acted := With(ids, ACTION, Text(name));
    var flag := if action.deleteMessage then TRUE else FALSE;
    payload := Append(payload, DELETE_MESSAGE, flag, acted, Flag(action.deleteMessage));
    ghost var verdict := With(acted, DELETE_MESSAGE, Flag(action.deleteMessage));
    var preview := Clipping.MessagePreview(text);
    var quoted := JsonEscape(preview);
    payload := Append(payload, MESSAGE_PREVIEW, quoted, verdict, Text(preview));
  }

  /** log_decision_impl: the payload of a decision; its callers give no skip reason, or a plain word. */
  method LogDecision(chat: int, user: int, text: Bytes, action: Moderator.Action, pattern: Bytes, skip: Plain)
    returns (payload: Bytes)
    ensures IsWritten(payload, DecisionMembers(chat, user, text, action, pattern, skip))
  {
    payload := LogStart(chat, user, text, action);
    ghost var start := DecisionStart(chat, user, text, action);
    if pattern != [] {
      var quoted := JsonEscape(pattern);
      payload := Append(payload, MATCHED_PATTERN, quoted, start, Text(pattern));
    }
    ghost var matched := if pattern != [] then With(start, MATCHED_PATTERN, Text(pattern)) else start;
    if skip != [] {
      RawIsQuoted(skip);
      payload := Append(payload, SKIP_REASON, Raw(skip), matched, Text(skip));
    }
  }

  /**
   Every decision record is one line, and one JSON object from which a reader gets back the decision, the ids and the
   clipped message byte for byte, whatever the message holds.
   */
  lemma DecisionReadsBack(ts: Bytes, level: Bytes, logger: Bytes, chat: int, user: int, text: Bytes,
                          action: Moderator.Action, pattern: Bytes, skip: Bytes)
    requires IsPlain(ts) && IsPlain(level) && IsPlain(logger)
    ensures var ms := DecisionMembers(chat, user, text, action, pattern, skip);
      var record := Record(ts, level, logger, [SEPARATOR] + WriteMembers(ms));
      IsOneLine(record) && ReadObject(record) == Some((HeaderMembers(ts, level, logger) + ms, [NEWLINE]))
  {
    var ms := DecisionMembers(chat, user, text, action, pattern, skip);
    var payload := [SEPARATOR] + WriteMembers(ms);
    Head(SEPARATOR, WriteMembers(ms));
    RecordReadsBack(ts, level, logger, payload, ms);
    MembersHaveNoNewline(ms);
    OneLineIff(ts, level, logger, payload);
  }

  /** The members of a decision: six that are always there, then the pattern and the skip reason, if any. */
  lemma DecisionMembersAre(chat: int, user: int, text: Bytes, action: Moderator.Action, pattern: Bytes, skip: Bytes)
    ensures
      var name: Bytes :=
        if action.kind.Allow? then ALLOW else if action.kind.MuteTemporary? then MUTE_TEMPORARY else MUTE_PERMANENT;
      var decision := [
        Member(EVENT, Text(MODERATION_DECISION)), Member(CHAT_ID, Number(chat)), Member(USER_ID, Number(user)),
        Member(ACTION, Text(name)), Member(DELETE_MESSAGE, Flag(action.deleteMessage)),
        Member(MESSAGE_PREVIEW, Text(Clipping.Clip(text, 50)))];
      var matched := if pattern == [] then [] else [Member(MATCHED_PATTERN, Text(pattern))];
      var skipped := if skip == [] then [] else [Member(SKIP_REASON, Text(skip))];
      DecisionMembers(chat, user, text, action, pattern, skip) == decision + matched + skipped
  {
    SixMembers(Member(EVENT, Text(MODERATION_DECISION)), Member(CHAT_ID, Number(chat)), Member(USER_ID, Number(user)),
      Member(ACTION, Text(ActionName(action.kind))), Member(DELETE_MESSAGE, Flag(action.deleteMessage)),
      Member(MESSAGE_PREVIEW, Text(Clipping.Clip(text, 50))));
    NothingMore(DecisionStart(chat, user, text, action));
    if pattern != [] { NothingMore(With(DecisionStart(chat, user, text, action), MATCHED_PATTERN, Text(pattern))); }
  }

  lemma SixMembers(a: Member, b: Member, c: Member, d: Member, e: Member, f: Member)
    ensures [a] + [b] + [c] + [d] + [e] + [f] == [a, b, c, d, e, f]
  {}

  lemma NothingMore(ms: seq<Member>)
    ensures ms + [] == ms
  {}

  lemma ValueHasNoNewline(v: Value)
    ensures NoNewline(WriteValue(v))
  {
    match v
    case Text(s) => EscapedIsPrintable(s);
    case Number(n) =>
      DecimalDigits(if n < 0 then -n else n);
      assert n < 0 ==> Decimal(n) == [0x2D] + Decimal(-n);
    case Flag(b) =>
  }

  lemma {:induction false} MembersHaveNoNewline(ms: seq<Member>)
    requires ms != []
    ensures NoNewline(WriteMembers(ms))
  {
    EscapedIsPrintable(ms[0].name);
    ValueHasNoNewline(ms[0].value);
    var q, v := Quoted(ms[0].name), WriteValue(ms[0].value);
    NoNewlineJoin([COLON], v);
    NoNewlineJoin(q, [COLON] + v);
    if |ms| > 1 {
      MembersHaveNoNewline(ms[1..]);
      NoNewlineJoin([COMMA], WriteMembers(ms[1..]));
      NoNewlineJoin(WriteMember(ms[0]), [COMMA] + WriteMembers(ms[1..]));
    }
  }

  // ---------------------------------------------------------------- well-formed records

  ghost predicate IsWellFormedMember(m: Member) {
    Utf8.WellFormed(m.name) && (m.value.Text? ==> Utf8.WellFormed(m.value.s))
  }

  lemma MemberIsWellFormed(m: Member)
    requires IsWellFormedMember(m)
    ensures Utf8.WellFormed(WriteMember(m))
  {
    QuotedIsWellFormed(m.name);
    match m.value {
      case Text(s) => QuotedIsWellFormed(s);
      case Number(n) =>
        DecimalDigits(if n < 0 then -n else n);
        assert n < 0 ==> Decimal(n) == [0x2D] + Decimal(-n);
        Utf8.AsciiIsWellFormed(Decimal(n));
      case Flag(b) => Utf8.AsciiIsWellFormed(if b then TRUE else FALSE);
    }
    Utf8.AsciiIsWellFormed([COLON]);
    Utf8.WellFormedJoin([COLON], WriteValue(m.value));
    Utf8.WellFormedJoin(Quoted(m.name), [COLON] + WriteValue(m.value));
  }

  lemma {:induction false} MembersAreWellFormed(ms: seq<Member>)
    requires ms != [] && forall m | m in ms :: IsWellFormedMember(m)
    ensures Utf8.WellFormed(WriteMembers(ms))
  {
    assert ms[0] in ms;
    MemberIsWellFormed(ms[0]);
    if |ms| > 1 {
      assert forall m | m in ms[1..] :: m in ms;
      MembersAreWellFormed(ms[1..]);
      Utf8.AsciiIsWellFormed([COMMA]);
      Utf8.WellFormedJoin([COMMA], WriteMembers(ms[1..]));
      Utf8.WellFormedJoin(WriteMember(ms[0]), [COMMA] + WriteMembers(ms[1..]));
    }
  }

  lemma HeaderMembersAreWellFormed(ts: Bytes, level: Bytes, logger: Bytes)
    requires Utf8.WellFormed(ts) && Utf8.WellFormed(level) && Utf8.WellFormed(logger)
    ensures Utf8.WellFormed(WriteMembers(HeaderMembers(ts, level, logger)))
  {
    PlainIsWellFormed(TS);
    PlainIsWellFormed(LEVEL);
    PlainIsWellFormed(LOGGER);
    MembersAreWellFormed(HeaderMembers(ts, level, logger));
  }

  lemma HeaderIsWellFormed(ts: Bytes, level: Bytes, logger: Bytes)
    requires IsPlain(ts) && IsPlain(level) && IsPlain(logger)
    requires Utf8.WellFormed(ts) && Utf8.WellFormed(level) && Utf8.WellFormed(logger)
    ensures Utf8.WellFormed(Header(ts, level, logger))
  {
    HeaderMembersAreWellFormed(ts, level, logger);
    HeaderIsMembers(ts, level, logger);
    Utf8.AsciiIsWellFormed([OPEN]);
    Utf8.AsciiIsWellFormed([COMMA]);
    Utf8.WellFormedJoin(WriteMembers(HeaderMembers(ts, level, logger)), [COMMA]);
    Utf8.WellFormedJoin([OPEN], WriteMembers(HeaderMembers(ts, level, logger)) + [COMMA]);
  }

  /** With a well-formed body the record is well-formed. */
  lemma RecordIsWellFormed(ts: Bytes, level: Bytes, logger: Bytes, payload: Bytes)
    requires IsPlain(ts) && IsPlain(level) && IsPlain(logger)
    requires Utf8.WellFormed(ts) && Utf8.WellFormed(level) && Utf8.WellFormed(logger) && Utf8.WellFormed(Body(payload))
    ensures Utf8.WellFormed(Record(ts, level, logger, payload))
  {
    HeaderIsWellFormed(ts, level, logger);
    Utf8.AsciiIsWellFormed([CLOSE, NEWLINE]);
    Utf8.WellFormedJoin(Header(ts, level, logger), Body(payload));
    Utf8.WellFormedJoin(Header(ts, level, logger) + Body(payload), [CLOSE, NEWLINE]);
  }

  /** A well-formed log message gives a well-formed record. */
  lemma MessageIsWellFormed(ts: Bytes, level: Bytes, logger: Bytes, payload: Bytes)
    requires IsPlain(ts) && IsPlain(level) && IsPlain(logger)
    requires Utf8.WellFormed(ts) && Utf8.WellFormed(level) && Utf8.WellFormed(logger)
    requires !IsStructured(payload) && Utf8.WellFormed(payload)
    ensures Utf8.WellFormed(Record(ts, level, logger, payload))
  {
    MessageMember(payload);
    RecordIsWellFormed(ts, level, logger, payload);
  }

  lemma MessageMember(payload: Bytes)
    requires Utf8.WellFormed(payload)
    ensures Utf8.WellFormed(Field(MESSAGE, Quoted(payload)))
  {
    PlainIsWellFormed(MESSAGE);
    MemberIsWellFormed(Member(MESSAGE, Text(payload)));
    FieldIsMember(MESSAGE, Text(payload));
  }

  lemma WithIsWellFormed(ms: seq<Member>, name: Plain, v: Value)
    requires (forall m | m in ms :: IsWellFormedMember(m)) && (v.Text? ==> Utf8.WellFormed(v.s))
    ensures forall m | m in With(ms, name, v) :: IsWellFormedMember(m)
  {
    PlainIsWellFormed(name);
  }

  lemma DecisionMembersAreWellFormed(chat: int, user: int, text: Bytes, action: Moderator.Action, pattern: Bytes,
                                     skip: Bytes)
    requires Utf8.WellFormed(text) && Utf8.WellFormed(pattern) && Utf8.WellFormed(skip)
    ensures forall m | m in DecisionMembers(chat, user, text, action, pattern, skip) :: IsWellFormedMember(m)
  {
    PlainIsWellFormed(EVENT);
    PlainIsWellFormed(MODERATION_DECISION);
    PlainIsWellFormed(ActionName(action.kind));
    Clipping.ClipOfWellFormed(text, 50);
    var event := [Member(EVENT, Text(MODERATION_DECISION))];
    WithIsWellFormed(event, CHAT_ID, Number(chat));
    var named := With(event, CHAT_ID, Number(chat));
    WithIsWellFormed(named, USER_ID, Number(user));
    var ids := With(named, USER_ID, Number(user));
    WithIsWellFormed(ids, ACTION, Text(ActionName(action.kind)));
    var acted := With(ids, ACTION, Text(ActionName(action.kind)));
    WithIsWellFormed(acted, DELETE_MESSAGE, Flag(action.deleteMessage));
    WithIsWellFormed(With(acted, DELETE_MESSAGE, Flag(action.deleteMessage)), MESSAGE_PREVIEW,
      Text(Clipping.Clip(text, 50)));
    var start := DecisionStart(chat, user, text, action);
    WithIsWellFormed(start, MATCHED_PATTERN, Text(pattern));
    var matched := if pattern != [] then With(start, MATCHED_PATTERN, Text(pattern)) else start;
    WithIsWellFormed(matched, SKIP_REASON, Text(skip));
  }

  /**
   The record of a decision about a well-formed message is well-formed: clipping and escaping cut no character apart.
   */
  lemma DecisionIsWellFormed(ts: Bytes, level: Bytes, logger: Bytes, chat: int, user: int, text: Bytes,
                             action: Moderator.Action, pattern: Bytes, skip: Bytes)
    requires IsPlain(ts) && IsPlain(level) && IsPlain(logger)
    requires Utf8.WellFormed(ts) && Utf8.WellFormed(level) && Utf8.WellFormed(logger)
    requires Utf8.WellFormed(text) && Utf8.WellFormed(pattern) && Utf8.WellFormed(skip)
    ensures var ms := DecisionMembers(chat, user, text, action, pattern, skip);
      Utf8.WellFormed(Record(ts, level, logger, [SEPARATOR] + WriteMembers(ms)))
  {
    var ms := DecisionMembers(chat, user, text, action, pattern, skip);
    DecisionMembersAreWellFormed(chat, user, text, action, pattern, skip);
    MembersAreWellFormed(ms);
    Head(SEPARATOR, WriteMembers(ms));
    RecordIsWellFormed(ts, level, logger, [SEPARATOR] + WriteMembers(ms));
  }
}
