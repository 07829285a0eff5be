/**
 * The `/query` command: the keyword is taken from the command text, a blank
 * keyword gets a usage hint, otherwise the store is searched and the reply
 * lists at most ten of the results, newest first, under a header with the
 * number of results and above a footer with the number not shown. The
 * rendering of a timestamp as local time is a parameter.
 */
module QueryCommand {
  import opened Wrappers
  import opened Types
  import opened JsString
  import opened Database
  import SqlLike

  const BotMention: string := "@GroupMsgSyncToolsBot"
  const UsageReply: string := "请提供搜索关键词，例如：/query 测试"
  const ErrorReply: string := "查询消息时出错"
  const UnknownSender: string := "未知"

  /** How many results the reply lists, and how many characters of a text a
      line shows. */
  const ShownLimit: nat := 10
  const PreviewLength: nat := 50

  /** The keyword: the first "/query" and then the first bot mention are cut
      out of the command text, and white space is trimmed from both ends. */
  function ExtractKeyword(text: string): (k: string)
    ensures k != [] ==> !IsWhiteSpace(k[0]) && !IsWhiteSpace(k[|k| - 1])
  {
    Trim(ReplaceFirst(ReplaceFirst(text, "/query", ""), BotMention, ""))
  }

  /** `/query rest` searches for `rest` trimmed, when `rest` does not mention
      the bot. */
  lemma KeywordOfCommand(rest: string)
    requires forall j :: !OccursAt(rest, BotMention, j)
    ensures ExtractKeyword("/query" + rest) == Trim(rest)
  {
    ReplaceFirstAtStart("/query", rest);
    assert IndexOf(rest, BotMention).None?;
  }

  /** `/query@GroupMsgSyncToolsBot rest`, the form a group client sends,
      searches for `rest` trimmed. */
  lemma KeywordOfMentionCommand(rest: string)
    ensures ExtractKeyword("/query" + BotMention + rest) == Trim(rest)
  {
    assert "/query" + BotMention + rest == "/query" + (BotMention + rest);
    ReplaceFirstAtStart("/query", BotMention + rest);
    ReplaceFirstAtStart(BotMention, rest);
  }

  /** `fromFirstName || fromUsername || '未知'`: an empty name counts as no
      name, so the sender shown is never empty. */
  function Sender(msg: MessageRecord): (s: string)
    ensures s != []
    ensures TruthyString(msg.fromFirstName) ==> s == msg.fromFirstName.value
    ensures !TruthyString(msg.fromFirstName) && TruthyString(msg.fromUsername) ==> s == msg.fromUsername.value
    ensures !TruthyString(msg.fromFirstName) && !TruthyString(msg.fromUsername) ==> s == UnknownSender
  {
    if TruthyString(msg.fromFirstName) then msg.fromFirstName.value
    else if TruthyString(msg.fromUsername) then msg.fromUsername.value
    else UnknownSender
  }

  /** A non-empty text is shown whole up to fifty characters and otherwise as
      its first fifty characters followed by "..."; a message without text,
      or with an empty one, is shown as its type in brackets. */
  function Preview(msg: MessageRecord): (p: string)
    ensures TruthyString(msg.text) ==> |p| <= PreviewLength + 3
    ensures TruthyString(msg.text) && |msg.text.value| <= PreviewLength ==> p == msg.text.value
    ensures TruthyString(msg.text) && |msg.text.value| > PreviewLength ==>
      |p| == PreviewLength + 3 && p[..PreviewLength] == msg.text.value[..PreviewLength]
    ensures !TruthyString(msg.text) ==>
      |p| == |msg.messageType| + 2 && p[0] == '[' && p[|p| - 1] == ']'
  {
    if TruthyString(msg.text) then
      var t := msg.text.value;
      if |t| > PreviewLength then t[..PreviewLength] + "..." else t
    else "[" + msg.messageType + "]"
  }

  /** What surrounds the kept part of a preview: a cut text ends in "...",
      and the brackets enclose exactly the message type. */
  lemma PreviewParts(msg: MessageRecord)
    ensures var p := Preview(msg);
      && (TruthyString(msg.text) && |msg.text.value| > PreviewLength ==> p[PreviewLength..] == "...")
      && (!TruthyString(msg.text) ==> p[1..|p| - 1] == msg.messageType)
  {
  }

  /** The line for the result at `index` (counted from 0). */
  function Line(index: nat, msg: MessageRecord, timeText: int -> string): (line: string)
    ensures |line| > 0 && line[|line| - 1] == '\n'
  {
    NatToString(index + 1) + ". [" + timeText(msg.timestamp) + "] " + Sender(msg) + ": " + Preview(msg) + "\n"
  }

  /** A result line is numbered from 1: it opens with the number, then holds
      the record's time in brackets, and closes with the sender, a colon, the
      preview and a line break. */
  lemma LineParts(index: nat, msg: MessageRecord, timeText: int -> string)
    ensures var line := Line(index, msg, timeText);
      var tail := "] " + Sender(msg) + ": " + Preview(msg) + "\n";
      var head := NatToString(index + 1) + ". [";
      && StartsWith(line, head)
      && |tail| <= |line| && line[|line| - |tail|..] == tail
      && |head| + |tail| <= |line| && line[|head|..|line| - |tail|] == timeText(msg.timestamp)
  {
    var head := NatToString(index + 1) + ". [";
    var tail := "] " + Sender(msg) + ": " + Preview(msg) + "\n";
    var line := Line(index, msg, timeText);
    assert line == head + timeText(msg.timestamp) + tail;
  }

  /** The lines for `shown`, numbered from 1, one after the other. */
  function Lines(shown: seq<MessageRecord>, timeText: int -> string): string {
    if shown == [] then ""
    else Lines(shown[..|shown| - 1], timeText) + Line(|shown| - 1, shown[|shown| - 1], timeText)
  }

  function Header(count: nat): string {
    "找到 " + NatToString(count) + " 条相关消息：\n\n"
  }

  /** The footer that counts the results left out; there is one only when
      there are more results than lines. */
  function Footer(count: nat): string {
    if count > ShownLimit then "\n... 还有 " + NatToString(count - ShownLimit) + " 条消息未显示" else ""
  }

  /** The results that get a line: the first ten. */
  function Shown(found: seq<MessageRecord>): seq<MessageRecord> {
    if |found| > ShownLimit then found[..ShownLimit] else found
  }

  /** The reply listing `found`. */
  function Listing(found: seq<MessageRecord>, timeText: int -> string): string {
    Header(|found|) + Lines(Shown(found), timeText) + Footer(|found|)
  }

  /** More than ten results: the listing holds the lines of the first ten
      only, then a footer counting the rest. */
  lemma ListingOfMany(found: seq<MessageRecord>, timeText: int -> string)
    requires |found| > ShownLimit
    ensures Listing(found, timeText)
         == Header(|found|) + Lines(found[..ShownLimit], timeText)
            + "\n... 还有 " + NatToString(|found| - ShownLimit) + " 条消息未显示"
  {
    assert Shown(found) == found[..ShownLimit];
    ConcatFour(Header(|found|) + Lines(found[..ShownLimit], timeText),
               "\n... 还有 ", NatToString(|found| - ShownLimit), " 条消息未显示");
  }

  lemma ConcatFour(a: string, b: string, c: string, d: string)
    ensures a + (b + c + d) == a + b + c + d
  {
  }

  /** At most ten results: the listing holds a line for each and no footer. */
  lemma ListingOfFew(found: seq<MessageRecord>, timeText: int -> string)
    requires |found| <= ShownLimit
    ensures Listing(found, timeText) == Header(|found|) + Lines(found, timeText)
  {
  }

  /** The lines of a prefix of `shown` are a prefix of the lines of `shown`. */
  lemma {:induction false} LinesPrefix(shown: seq<MessageRecord>, k: nat, timeText: int -> string)
    requires k <= |shown|
    ensures StartsWith(Lines(shown, timeText), Lines(shown[..k], timeText))
    decreases |shown|
  {
    if k < |shown| {
      var init := shown[..|shown| - 1];
      LinesPrefix(init, k, timeText);
      assert init[..k] == shown[..k];
    } else {
      assert shown[..k] == shown;
    }
  }

  lemma LinesSnoc(shown: seq<MessageRecord>, k: nat, timeText: int -> string)
    requires k < |shown|
    ensures Lines(shown[..k + 1], timeText) == Lines(shown[..k], timeText) + Line(k, shown[k], timeText)
  {
    assert shown[..k + 1][..k] == shown[..k];
  }

  /** The lines of `shown` start with the lines of the results before `i`
      and then the line of result `i`. */
  lemma LinesStartAt(shown: seq<MessageRecord>, i: nat, timeText: int -> string)
    requires i < |shown|
    ensures StartsWith(Lines(shown, timeText), Lines(shown[..i], timeText) + Line(i, shown[i], timeText))
  {
    LinesPrefix(shown, i + 1, timeText);
    LinesSnoc(shown, i, timeText);
  }

  lemma ShownLinesStart(found: seq<MessageRecord>, i: nat, timeText: int -> string)
    requires i < |Shown(found)|
    ensures StartsWith(Lines(Shown(found), timeText), Lines(found[..i], timeText) + Line(i, found[i], timeText))
  {
    var shown := Shown(found);
    LinesStartAt(shown, i, timeText);
    assert shown[..i] == found[..i] && shown[i] == found[i];
  }

  /** Each of the first ten results has its own line in the listing: the
      listing starts with the header, the lines of the results before it,
      and then its line. */
  lemma ResultLineShown(found: seq<MessageRecord>, i: nat, timeText: int -> string)
    requires i < |found| && i < ShownLimit
    ensures StartsWith(Listing(found, timeText), Header(|found|) + Lines(found[..i], timeText) + Line(i, found[i], timeText))
  {
    ShownLinesStart(found, i, timeText);
    StartsWithInMiddle(Header(|found|), Lines(Shown(found), timeText), Footer(|found|),
                       Lines(found[..i], timeText), Line(i, found[i], timeText));
  }

  /** What the middle part starts with follows the first part in the whole. */
  lemma StartsWithInMiddle(a: string, b: string, c: string, before: string, line: string)
    requires StartsWith(b, before + line)
    ensures StartsWith(a + b + c, a + before + line)
  {
    assert (a + b + c)[..|a| + |before| + |line|] == a + b[..|before| + |line|];
  }

  /** The listing ends with the footer exactly when some results are left
      out; otherwise it ends with the last result's line break. */
  lemma ListingEnd(found: seq<MessageRecord>, timeText: int -> string)
    requires found != []
    ensures var reply := Listing(found, timeText);
      && (|found| > ShownLimit ==> |Footer(|found|)| <= |reply| && reply[|reply| - |Footer(|found|)|..] == Footer(|found|))
      && (|found| <= ShownLimit ==> reply[|reply| - 1] == '\n')
  {
    var shown := Shown(found);
    var reply := Listing(found, timeText);
    var body := Header(|found|) + Lines(shown, timeText);
    assert reply == body + Footer(|found|);
    if |found| <= ShownLimit {
      var last := Line(|shown| - 1, shown[|shown| - 1], timeText);
      assert Lines(shown, timeText) == Lines(shown[..|shown| - 1], timeText) + last;
      assert reply[|reply| - 1] == last[|last| - 1];
    }
  }

  /** One turn of the loop in `RenderResults`: appending the line of result
      `index` extends the lines by that result. */
  lemma AppendLine(shown: seq<MessageRecord>, index: nat, header: string, response: string, timeText: int -> string)
    requires index < |shown|
    requires response == header + Lines(shown[..index], timeText)
    ensures response + Line(index, shown[index], timeText) == header + Lines(shown[..index + 1], timeText)
  {
    LinesSnoc(shown, index, timeText);
  }

  /** Builds the listing the way the command does: the header, then one line
      per shown result appended in a loop, then the footer. */
  method RenderResults(found: seq<MessageRecord>, timeText: int -> string) returns (response: string)
    ensures response == Listing(found, timeText)
  {
    var shown := Shown(found);
    var header := Header(|found|);
    response := header;
    var index := 0;
    NoLinesYet(shown, header, timeText);
    while index < |shown|
      invariant index <= |shown|
      invariant response == header + Lines(shown[..index], timeText)
    {
      AppendLine(shown, index, header, response, timeText);
      response := response + Line(index, shown[index], timeText);
      index := index + 1;
    }
    AllLines(found, response, timeText);
    response := response + Footer(|found|);
  }

  lemma NoLinesYet(shown: seq<MessageRecord>, header: string, timeText: int -> string)
    ensures header == header + Lines(shown[..0], timeText)
  {
    assert shown[..0] == [];
  }

  lemma AllLines(found: seq<MessageRecord>, response: string, timeText: int -> string)
    requires response == Header(|found|) + Lines(Shown(found)[..|Shown(found)|], timeText)
    ensures response + Footer(|found|) == Listing(found, timeText)
  {
    assert Shown(found)[..|Shown(found)|] == Shown(found);
  }

  function NotFoundReply(keyword: string): string {
    "未找到包含 \"" + keyword + "\" 的消息"
  }

  /** The reply to the command text: the usage hint for a blank keyword, the
      error reply when the search throws, the not-found reply when nothing
      matches, the listing otherwise. */
  function QueryReply(text: string, rows: seq<Row>, searchThrows: bool, timeText: int -> string): string {
    var keyword := ExtractKeyword(text);
    if keyword == "" then UsageReply
    else if searchThrows then ErrorReply
    else
      var found := QueryMessages(rows, keyword);
      if found == [] then NotFoundReply(keyword) else Listing(found, timeText)
  }

  /** The four replies are told apart: the usage hint exactly for a blank
      keyword, the error reply exactly when a search was made and threw, the
      not-found reply exactly when the search came back empty, and the
      listing otherwise. */
  lemma QueryReplyCases(text: string, rows: seq<Row>, searchThrows: bool, timeText: int -> string)
    ensures var keyword := ExtractKeyword(text);
      var reply := QueryReply(text, rows, searchThrows, timeText);
      && (reply == UsageReply <==> keyword == "")
      && (reply == ErrorReply <==> keyword != "" && searchThrows)
      && (reply == NotFoundReply(keyword) <==> keyword != "" && !searchThrows && QueryMessages(rows, keyword) == [])
      && (keyword != "" && !searchThrows && QueryMessages(rows, keyword) != [] ==>
            reply == Listing(QueryMessages(rows, keyword), timeText))
  {
    var keyword := ExtractKeyword(text);
    if keyword != "" && !searchThrows {
      var found := QueryMessages(rows, keyword);
      RepliesDiffer(keyword, found, timeText);
    } else {
      RepliesDiffer(keyword, [], timeText);
    }
  }

  /** The four replies start with four different characters. */
  lemma RepliesDiffer(keyword: string, found: seq<MessageRecord>, timeText: int -> string)
    ensures UsageReply != ErrorReply && UsageReply != NotFoundReply(keyword) && ErrorReply != NotFoundReply(keyword)
    ensures UsageReply != Listing(found, timeText) && ErrorReply != Listing(found, timeText)
    ensures NotFoundReply(keyword) != Listing(found, timeText)
  {
    ListingStart(found, timeText);
    assert UsageReply[0] == '请' && ErrorReply[0] == '查';
    NotFoundStart(keyword);
  }

  lemma ListingStart(found: seq<MessageRecord>, timeText: int -> string)
    ensures Listing(found, timeText) != [] && Listing(found, timeText)[0] == '找'
  {
    var header := Header(|found|);
    assert header[0] == '找';
    StartOfConcat(header, Lines(Shown(found), timeText), Footer(|found|));
  }

  lemma NotFoundStart(keyword: string)
    ensures NotFoundReply(keyword) != [] && NotFoundReply(keyword)[0] == '未'
  {
    var prefix := "未找到包含 \"";
    assert prefix[0] == '未';
    StartOfConcat(prefix, keyword, "\" 的消息");
  }

  lemma StartOfConcat(a: string, b: string, c: string)
    requires a != []
    ensures (a + b + c)[0] == a[0]
  {
  }

  /** The command handler. A command without text searches as the empty text
      does. */
  method HandleQuery(text: Option<string>, store: MessageStore, searchThrows: bool, timeText: int -> string)
    returns (reply: string)
    ensures reply == QueryReply(text.GetOr(""), store.rows, searchThrows, timeText)
  {
    var keyword := ExtractKeyword(text.GetOr(""));
    if keyword == "" {
      return UsageReply;
    }
    if searchThrows {
      return ErrorReply;
    }
    var found := QueryMessages(store.rows, keyword);
    if |found| == 0 {
      return NotFoundReply(keyword);
    }
    reply := RenderResults(found, timeText);
  }

  /** The usage hint is sent exactly when the keyword is blank: the four
      kinds of reply begin differently. */
  lemma UsageIffBlankKeyword(text: string, rows: seq<Row>, searchThrows: bool, timeText: int -> string)
    ensures QueryReply(text, rows, searchThrows, timeText) == UsageReply
        <==> forall k :: 0 <= k < |ReplaceFirst(ReplaceFirst(text, "/query", ""), BotMention, "")| ==>
               IsWhiteSpace(ReplaceFirst(ReplaceFirst(text, "/query", ""), BotMention, "")[k])
  {
    var stripped := ReplaceFirst(ReplaceFirst(text, "/query", ""), BotMention, "");
    TrimEmptyIffBlank(stripped);
    var keyword := ExtractKeyword(text);
    if keyword != "" && !searchThrows {
      var found := QueryMessages(rows, keyword);
      var reply := QueryReply(text, rows, searchThrows, timeText);
      if found == [] {
        assert reply[0] == '未';
      } else {
        assert reply == Header(|found|) + Lines(Shown(found), timeText) + Footer(|found|);
        assert reply[0] == '找';
      }
    }
  }

  /** A non-blank keyword whose search finds nothing gets the not-found
      reply, which quotes the keyword. */
  lemma NotFoundQuotesKeyword(text: string, rows: seq<Row>, timeText: int -> string)
    requires ExtractKeyword(text) != ""
    requires QueryMessages(rows, ExtractKeyword(text)) == []
    ensures var reply := QueryReply(text, rows, false, timeText);
      var keyword := ExtractKeyword(text);
      reply[|"未找到包含 \""|..|"未找到包含 \""| + |keyword|] == keyword
  {
  }

  /** The command searches only what was synced: a record that a listing
      numbers is a synced row of the store whose text matches `%keyword%`. */
  lemma ListedAreSyncedMatches(text: string, rows: seq<Row>, timeText: int -> string, i: nat)
    requires ExtractKeyword(text) != ""
    requires i < |QueryMessages(rows, ExtractKeyword(text))| && i < ShownLimit
    ensures var found := QueryMessages(rows, ExtractKeyword(text));
      && QueryReply(text, rows, false, timeText) == Listing(found, timeText)
      && found[i].synced && found[i].text.Some?
      && SqlLike.Like("%" + ExtractKeyword(text) + "%", found[i].text.value)
      && exists j :: 0 <= j < |rows| && found[i] == ToRecord(rows[j])
  {
  }
}
