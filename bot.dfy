/**
 * The relay pipeline: which incoming messages are taken, how a message is
 * classified and turned into a record, and the forward-or-fall-back steps
 * that follow the save. The transport (forwarding, sending text) and the
 * store's failures are inputs: an `Outcomes` value says how each step that
 * can throw turns out.
 */
module Bot {
  import opened Wrappers
  import opened Types
  import opened JsString
  import opened AppConfig
  import opened Database

  datatype Chat = Chat(id: int)

  /** The sender; Telegram always gives a first name. */
  datatype User = User(id: int, isBot: bool, username: Option<string>, firstName: string)

  /** The content fields the classifier looks for. */
  datatype Content = Text | Photo | Video | Document | Audio | Voice | Sticker | VideoNote | Animation

  /** An incoming message: `date` is in seconds, `text` is present exactly
      when the message object has a `text` field, `media` lists the other
      content fields it has. */
  datatype Message = Message(
    messageId: int,
    date: int,
    chat: Option<Chat>,
    from: Option<User>,
    text: Option<string>,
    media: set<Content>)

  predicate HasField(m: Message, c: Content) {
    if c == Text then m.text.Some? else c in m.media
  }

  function FieldName(c: Content): string {
    match c
    case Text => "text"
    case Photo => "photo"
    case Video => "video"
    case Document => "document"
    case Audio => "audio"
    case Voice => "voice"
    case Sticker => "sticker"
    case VideoNote => "video_note"
    case Animation => "animation"
  }

  /** The order in which the classifier tries the content fields. */
  const ContentOrder: seq<Content> := [Text, Photo, Video, Document, Audio, Voice, Sticker, VideoNote, Animation]

  /** `getMessageType`: text takes precedence over every other content, and
      the type is never empty. */
  function GetMessageType(m: Message): (t: string)
    ensures t == "text" <==> m.text.Some?
    ensures t != []
  {
    if HasField(m, Text) then "text"
    else if HasField(m, Photo) then "photo"
    else if HasField(m, Video) then "video"
    else if HasField(m, Document) then "document"
    else if HasField(m, Audio) then "audio"
    else if HasField(m, Voice) then "voice"
    else if HasField(m, Sticker) then "sticker"
    else if HasField(m, VideoNote) then "video_note"
    else if HasField(m, Animation) then "animation"
    else "unknown"
  }

  /** The content field `ContentOrder[i]` is the first one the message has. */
  predicate IsFirstPresent(m: Message, i: int) {
    && 0 <= i < |ContentOrder| && HasField(m, ContentOrder[i])
    && forall j :: 0 <= j < i ==> !HasField(m, ContentOrder[j])
  }

  /** The type is the name of the first content field, in `ContentOrder`,
      that the message has. */
  lemma ClassifiedByFirstPresent(m: Message, i: int)
    requires IsFirstPresent(m, i)
    ensures GetMessageType(m) == FieldName(ContentOrder[i])
  {
    var order := ContentOrder;
    assert order[0] == Text && order[1] == Photo && order[2] == Video && order[3] == Document;
    assert order[4] == Audio && order[5] == Voice && order[6] == Sticker && order[7] == VideoNote;
    assert order[8] == Animation && |order| == 9;
    assert forall j :: 0 <= j < i ==> !HasField(m, order[j]);
  }

  /** The type is "unknown" exactly when the message has none of the
      content fields. */
  lemma UnknownIffNoContent(m: Message)
    ensures GetMessageType(m) == "unknown" <==> forall i :: 0 <= i < |ContentOrder| ==> !HasField(m, ContentOrder[i])
  {
    var order := ContentOrder;
    assert order[0] == Text && order[1] == Photo && order[2] == Video && order[3] == Document;
    assert order[4] == Audio && order[5] == Voice && order[6] == Sticker && order[7] == VideoNote;
    assert order[8] == Animation && |order| == 9;
  }

  /** The message handler's three early returns, in order: another chat (or
      none), a bot sender, a text starting with '/'. */
  predicate Eligible(m: Message, sourceChatId: int) {
    && m.chat.Some? && m.chat.value.id == sourceChatId
    && !(m.from.Some? && m.from.value.isBot)
    && !(m.text.Some? && StartsWith(m.text.value, "/"))
  }

  /** `saveMessageToDb`'s record: unsynced, without sync time, with the date
      turned from seconds into milliseconds and chat id 0 when the message
      has no chat. */
  function BuildRecord(m: Message, messageType: string): (r: MessageRecord)
    ensures !r.synced && r.syncTimestamp == None && r.id == None
    ensures r.timestamp == m.date * 1000
    ensures r.chatId == (if m.chat.Some? then m.chat.value.id else 0)
    ensures r.messageId == m.messageId && r.text == m.text && r.messageType == messageType
    ensures r.fromUserId == (if m.from.Some? then Some(m.from.value.id) else None)
    ensures r.fromUsername == (if m.from.Some? then m.from.value.username else None)
    ensures r.fromFirstName == (if m.from.Some? then Some(m.from.value.firstName) else None)
  {
    MessageRecord(
      None, m.messageId,
      if m.chat.Some? then m.chat.value.id else 0,
      if m.from.Some? then Some(m.from.value.id) else None,
      if m.from.Some? then m.from.value.username else None,
      if m.from.Some? then Some(m.from.value.firstName) else None,
      m.text, messageType, m.date * 1000, false, None)
  }

  /** A call made to the messaging transport. */
  datatype Call =
    | ForwardMessage(toChatId: int, fromChatId: int, messageId: int)
    | SendMessage(chatId: int, text: string)

  /** Where the pipeline stops. */
  datatype Stage = Ignored | SaveFailed | Forwarded | FallbackSent | Unsynced

  /** How each step that can throw turns out: the insert, the forward, the
      mark after the forward, the fallback send, the mark after that send. */
  datatype Outcomes = Outcomes(
    saveThrows: bool,
    forwardOk: bool,
    markThrows: bool,
    sendOk: bool,
    fallbackMarkThrows: bool)

  /** The pipeline's result: the stage reached, the transport calls made, in
      order, and the table afterwards. */
  datatype Relayed = Relayed(stage: Stage, calls: seq<Call>, rows: seq<Row>)

  const FallbackPrefix: string := "[转发失败] "

  /** One incoming message through the handler, `saveMessageToDb` and
      `forwardMessage`. A throw from the mark that follows a successful
      forward is caught by the same handler as a failed forward, so it also
      leads to the text fallback. */
  function Relay(cfg: Config, m: Message, o: Outcomes, rows: seq<Row>, nextId: int, now: int): (r: Relayed)
    ensures !Eligible(m, cfg.sourceChatId) ==> r == Relayed(Ignored, [], rows)
    ensures Eligible(m, cfg.sourceChatId) && o.saveThrows ==> r == Relayed(SaveFailed, [], rows)
    ensures Eligible(m, cfg.sourceChatId) && !o.saveThrows ==> r.stage !in {Ignored, SaveFailed}
    ensures r.stage in {Ignored, SaveFailed} <==> r.calls == []
    ensures r.calls != [] ==> r.calls[0] == ForwardMessage(cfg.targetChatId, cfg.sourceChatId, m.messageId)
    ensures r.stage == Forwarded <==> r.calls != [] && o.forwardOk && !o.markThrows
    ensures r.stage == Forwarded ==> |r.calls| == 1
    ensures |r.calls| <= 2
    ensures |r.calls| == 2 <==> r.calls != [] && !(o.forwardOk && !o.markThrows) && TruthyString(m.text)
    ensures |r.calls| == 2 ==> r.calls[1] == SendMessage(cfg.targetChatId, FallbackPrefix + m.text.value)
    ensures r.stage == FallbackSent <==> |r.calls| == 2 && o.sendOk && !o.fallbackMarkThrows
    ensures r.calls == [] ==> r.rows == rows
    ensures r.calls != [] ==> |r.rows| == |rows| + 1 && r.rows[|rows|].id == nextId
  {
    if !Eligible(m, cfg.sourceChatId) then Relayed(Ignored, [], rows)
    else if o.saveThrows then Relayed(SaveFailed, [], rows)
    else
      var saved := rows + [NewRow(nextId, BuildRecord(m, GetMessageType(m)))];
      var forward := [ForwardMessage(cfg.targetChatId, cfg.sourceChatId, m.messageId)];
      if o.forwardOk && !o.markThrows then Relayed(Forwarded, forward, Marked(saved, nextId, now))
      else if !TruthyString(m.text) then Relayed(Unsynced, forward, saved)
      else
        var calls := forward + [SendMessage(cfg.targetChatId, FallbackPrefix + m.text.value)];
        if o.sendOk && !o.fallbackMarkThrows then Relayed(FallbackSent, calls, Marked(saved, nextId, now))
        else Relayed(Unsynced, calls, saved)
  }

  /** The message handler, run against the store. */
  method HandleMessage(store: MessageStore, cfg: Config, m: Message, o: Outcomes, now: int)
    returns (stage: Stage, calls: seq<Call>)
    requires store.Valid()
    modifies store
    ensures store.Valid()
    ensures Relay(cfg, m, o, old(store.rows), old(store.nextId), now) == Relayed(stage, calls, store.rows)
  {
    calls := [];
    if !Eligible(m, cfg.sourceChatId) {
      return Ignored, calls;
    }
    var messageType := GetMessageType(m);
    if o.saveThrows {
      return SaveFailed, calls;
    }
    var recordId := store.SaveMessage(BuildRecord(m, messageType));
    // forwardMessage: the try block
    calls := calls + [ForwardMessage(cfg.targetChatId, cfg.sourceChatId, m.messageId)];
    if o.forwardOk && !o.markThrows {
      store.MarkAsSynced(recordId, now);
      return Forwarded, calls;
    }
    // the catch block
    if TruthyString(m.text) {
      calls := calls + [SendMessage(cfg.targetChatId, FallbackPrefix + m.text.value)];
      if o.sendOk && !o.fallbackMarkThrows {
        store.MarkAsSynced(recordId, now);
        return FallbackSent, calls;
      }
    }
    return Unsynced, calls;
  }

  /** A message is stored and forwarded only if it passes all three early
      returns: a message from another chat or without one, from a bot, or
      whose text starts with '/' is ignored, and nothing else is. */
  lemma IgnoredIffFiltered(cfg: Config, m: Message, o: Outcomes, rows: seq<Row>, nextId: int, now: int)
    ensures Relay(cfg, m, o, rows, nextId, now).stage == Ignored <==>
      || m.chat.None? || m.chat.value.id != cfg.sourceChatId
      || (m.from.Some? && m.from.value.isBot)
      || (m.text.Some? && StartsWith(m.text.value, "/"))
  {
  }

  /** A throw from the mark that follows a successful forward still sends
      the text fallback: a text message then reaches the target twice, once
      forwarded and once as text, and its record stays unsynced unless the
      second mark succeeds. */
  lemma MarkFailureAfterForwardSendsBoth(cfg: Config, m: Message, o: Outcomes, rows: seq<Row>, nextId: int, now: int)
    requires Eligible(m, cfg.sourceChatId) && !o.saveThrows
    requires o.forwardOk && o.markThrows && TruthyString(m.text)
    ensures var r := Relay(cfg, m, o, rows, nextId, now);
      && r.calls == [ForwardMessage(cfg.targetChatId, cfg.sourceChatId, m.messageId),
                     SendMessage(cfg.targetChatId, FallbackPrefix + m.text.value)]
      && (r.stage == FallbackSent <==> o.sendOk && !o.fallbackMarkThrows)
  {
  }

  /** The record of a relayed message reads back as built, synced with the
      given time exactly when the pipeline reached Forwarded or FallbackSent;
      a filtered message or a failed save stores nothing. */
  lemma RelayedRecord(cfg: Config, m: Message, o: Outcomes, rows: seq<Row>, now: int)
    requires WellFormed(rows)
    ensures var id := |rows| + 1;
      var r := Relay(cfg, m, o, rows, id, now);
      var built := ToRecord(NewRow(id, BuildRecord(m, GetMessageType(m))));
      && (r.stage in {Ignored, SaveFailed} ==> r.rows == rows && GetMessage(r.rows, id) == None)
      && (r.stage in {Forwarded, FallbackSent} ==>
            GetMessage(r.rows, id) == Some(built.(synced := true, syncTimestamp := Some(now))))
      && (r.stage == Unsynced ==> GetMessage(r.rows, id) == Some(built))
  {
    var id := |rows| + 1;
    var saved := rows + [NewRow(id, BuildRecord(m, GetMessageType(m)))];
    assert WellFormed(saved);
    GetMessageByPosition(rows, id);
    GetMessageByPosition(saved, id);
    MarkThenGet(saved, id, now);
  }

  /** A record the pipeline leaves unsynced is never found by a search. */
  lemma UnsyncedNeverFound(cfg: Config, m: Message, o: Outcomes, rows: seq<Row>, now: int, keyword: string)
    requires WellFormed(rows)
    requires Relay(cfg, m, o, rows, |rows| + 1, now).stage == Unsynced
    ensures forall q :: q in QueryMessages(Relay(cfg, m, o, rows, |rows| + 1, now).rows, keyword)
                        ==> q.id != Some(|rows| + 1)
  {
    var id := |rows| + 1;
    assert Relay(cfg, m, o, rows, id, now).rows == rows + [NewRow(id, BuildRecord(m, GetMessageType(m)))];
    UnsyncedLastNeverFound(rows, NewRow(id, BuildRecord(m, GetMessageType(m))), keyword);
  }

  /** An unsynced row appended to a well-formed table is never found. */
  lemma UnsyncedLastNeverFound(rows: seq<Row>, row: Row, keyword: string)
    requires WellFormed(rows) && row.synced != 1
    ensures forall q :: q in QueryMessages(rows + [row], keyword) ==> q.id != Some(|rows| + 1)
  {
    var after := rows + [row];
    var found := QueryMessages(after, keyword);
    forall q | q in found ensures q.id != Some(|rows| + 1) {
      var i :| 0 <= i < |found| && found[i] == q;
      var j :| 0 <= j < |after| && q == ToRecord(after[j]);
      assert after[j].synced == 1;
      assert j < |rows| && after[j] == rows[j];
    }
  }

  /** The pipeline keeps the table well formed and the sync invariant (a sync
      time exactly on synced rows), and only appends: every row already in
      the table is left exactly as it was. */
  lemma RelayKeepsInvariants(cfg: Config, m: Message, o: Outcomes, rows: seq<Row>, now: int)
    requires WellFormed(rows) && SyncConsistent(rows)
    ensures var r := Relay(cfg, m, o, rows, |rows| + 1, now);
      WellFormed(r.rows) && SyncConsistent(r.rows) && SyncProgress(rows, r.rows)
      && |rows| <= |r.rows| && r.rows[..|rows|] == rows
  {
    var id := |rows| + 1;
    var rec := BuildRecord(m, GetMessageType(m));
    var saved := rows + [NewRow(id, rec)];
    SaveKeepsSyncInvariant(rows, id, rec);
    MarkKeepsSyncInvariant(saved, id, now);
    SyncProgressTransitive(rows, saved, Marked(saved, id, now));
    assert WellFormed(saved);
    var marked := Marked(saved, id, now);
    assert forall i :: 0 <= i < |marked| ==> marked[i].id == saved[i].id;
    assert forall i :: 0 <= i < |rows| ==> saved[i].id != id && marked[i] == rows[i];
    assert marked[..|rows|] == rows;
  }

  /** One incoming message with the outcomes of its steps and the clock at
      the time of the mark. */
  datatype Event = Event(message: Message, outcomes: Outcomes, now: int)

  /** The table after handling `events` in order, starting from `rows`. */
  function RelayAll(cfg: Config, events: seq<Event>, rows: seq<Row>): seq<Row>
    decreases |events|
  {
    if events == [] then rows
    else
      var e := events[0];
      RelayAll(cfg, events[1..], Relay(cfg, e.message, e.outcomes, rows, |rows| + 1, e.now).rows)
  }

  /** Across any run of the bot, from any table that satisfies them, the table
      stays well formed, a row has a sync time exactly when it is synced, no
      synced row ever goes back to unsynced, and the rows already in the
      table are never changed, so a sync time once set is kept. */
  lemma {:induction false} RelayAllKeepsInvariants(cfg: Config, events: seq<Event>, rows: seq<Row>)
    requires WellFormed(rows) && SyncConsistent(rows)
    ensures var after := RelayAll(cfg, events, rows);
      WellFormed(after) && SyncConsistent(after) && SyncProgress(rows, after)
      && |rows| <= |after| && after[..|rows|] == rows
    decreases |events|
  {
    if events != [] {
      var e := events[0];
      var next := Relay(cfg, e.message, e.outcomes, rows, |rows| + 1, e.now).rows;
      RelayKeepsInvariants(cfg, e.message, e.outcomes, rows, e.now);
      RelayAllKeepsInvariants(cfg, events[1..], next);
      var after := RelayAll(cfg, events[1..], next);
      SyncProgressTransitive(rows, next, after);
      assert after[..|rows|] == after[..|next|][..|rows|] == next[..|rows|];
    }
  }
}
