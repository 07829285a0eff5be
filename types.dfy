/** The record and statistics shapes shared by the store and the bot. */
module Types {
  import opened Wrappers

  /** One stored message, as the store hands it to the bot. `id` is absent in
      a record that has not been saved yet; the optional sender fields, the
      text and the sync time may be absent; `messageType` is a free string. */
  datatype MessageRecord = MessageRecord(
    id: Option<int>,
    messageId: int,
    chatId: int,
    fromUserId: Option<int>,
    fromUsername: Option<string>,
    fromFirstName: Option<string>,
    text: Option<string>,
    messageType: string,
    timestamp: int,
    synced: bool,
    syncTimestamp: Option<int>)

  /** The figures the `/stats` command reports. */
  datatype SyncStats = SyncStats(totalMessages: int, todayMessages: int, lastSyncTime: Option<int>)

  /** JavaScript truthiness of an optional string: present and not empty. */
  predicate TruthyString(o: Option<string>) {
    o.Some? && o.value != ""
  }

  /** JavaScript truthiness of an optional number: present and not zero. */
  predicate TruthyNumber(o: Option<int>) {
    o.Some? && o.value != 0
  }
}
