/** The data the bot keeps and exchanges: the `ScheduledReminder` row, an
    inbound chat message, an outbound message, and the configuration read
    from the environment at start-up. */
module Records {
  import opened Common

  /** One row of the `scheduled_reminders` table. `time` and `snoozeUntil`
      are the stored text labels; `snoozeUntil` is "" when not snoozed and
      `notificationId` is absent until the reminder first fires. */
  datatype Reminder = Reminder(
    id: int,
    notificationId: Option<int>,
    name: string,
    daily: bool,
    time: string,
    snoozeUntil: string,
    completed: bool)

  /** An inbound message, with the id of the message it replies to, if any. */
  datatype Response = Response(message: string, replyId: Option<int>)

  /** The three columns the `list` command selects. */
  datatype Row = Row(name: string, time: string, snoozeUntil: string)

  /** An outbound message: plain text, or the listing sent as an escaped
      MarkdownV2 table (its layout is not modelled, only its rows). */
  datatype Outbound = Text(text: string) | EscapedTable(rows: seq<Row>)

  /** `SNOOZE_MINUTES`, `RESET_TIME` and `NEW_REMINDER_MESSAGE_DELIMITER`. */
  datatype Config = Config(snoozeMinutes: int, resetTime: string, delimiter: char)

  /** `if response.reply_id:` treats a missing id and the id 0 alike as
      "not a reply". */
  predicate IsReply(r: Response) {
    r.replyId.Some? && r.replyId.value != 0
  }

  /** No two rows share a primary key. */
  ghost predicate KeysUnique(rs: seq<Reminder>) {
    forall i, j :: 0 <= i < j < |rs| ==> rs[i].id != rs[j].id
  }

  /** No two rows carry the same notification id, so a reply can be
      attributed to at most one reminder. */
  ghost predicate RoutesUnique(rs: seq<Reminder>) {
    forall i, j :: 0 <= i < j < |rs| && rs[i].notificationId.Some? ==>
      rs[i].notificationId != rs[j].notificationId
  }

  /** Every stored notification id is one of the first `issued` ids the
      gateway handed out. */
  ghost predicate RoutesIssued(rs: seq<Reminder>, issued: int) {
    forall i :: 0 <= i < |rs| && rs[i].notificationId.Some? ==>
      1 <= rs[i].notificationId.value <= issued
  }

  lemma RoutesIssuedGrows(rs: seq<Reminder>, issued: int, later: int)
    requires issued <= later && RoutesIssued(rs, issued)
    ensures RoutesIssued(rs, later)
  {
  }

  ghost predicate WellFormed(rs: seq<Reminder>) {
    KeysUnique(rs) && RoutesUnique(rs)
  }

  /** The largest primary key in use, or 0 for an empty table. */
  function MaxKey(rs: seq<Reminder>): (m: int)
    ensures m >= 0
    ensures forall i :: 0 <= i < |rs| ==> rs[i].id <= m
    ensures m == 0 || exists i :: 0 <= i < |rs| && rs[i].id == m
    decreases |rs|
  {
    if |rs| == 0 then 0
    else
      var m := MaxKey(rs[..|rs| - 1]);
      if rs[|rs| - 1].id > m then rs[|rs| - 1].id else m
  }

  /** The key the table gives the next inserted row (the rowid rule:
      one more than the largest key in use). */
  function NextKey(rs: seq<Reminder>): (k: int)
    ensures k >= 1
    ensures forall i :: 0 <= i < |rs| ==> rs[i].id < k
  {
    MaxKey(rs) + 1
  }
}
