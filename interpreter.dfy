/** The command interpreter of `process_responses`, one message at a time:
    a reply acknowledges or re-snoozes the reminder it answers; any other
    message is `list` or a `name|HHMM|flag` new-reminder command. `Run`
    folds a batch; the imperative loop in module App is proved against it. */
module Interpreter {
  import opened Common
  import opened Text
  import opened TimeLabel
  import opened Records

  // ---------------------------------------------------------------------
  // Replies

  /** The query `filter(notification_id == reply_id).first()`: the first row
      carrying the notification id, if any. */
  function FindByNotification(rs: seq<Reminder>, nid: int): (k: Option<nat>)
    ensures k.Some? ==> (k.value < |rs| && rs[k.value].notificationId == Some(nid) &&
                         forall j :: 0 <= j < k.value ==> rs[j].notificationId != Some(nid))
    ensures k.None? ==> forall j :: 0 <= j < |rs| ==> rs[j].notificationId != Some(nid)
    decreases |rs|
  {
    if |rs| == 0 then None
    else if rs[0].notificationId == Some(nid) then Some(0)
    else match FindByNotification(rs[1..], nid)
      case None => None
      case Some(k) => Some(k + 1)
  }

  /** The effect of a reply with text `text` to notification `nid`. */
  function ApplyReply(rs: seq<Reminder>, nid: int, text: string): (out: seq<Reminder>)
    ensures |out| == |rs|
  {
    match FindByNotification(rs, nid)
    case None => rs
    case Some(k) =>
      if Lower(text) == "y" then rs[k := rs[k].(completed := true, snoozeUntil := "")]
      else if IsDigitString(text) then rs[k := rs[k].(snoozeUntil := text)]
      else rs
  }

  /** A reply to a notification no reminder carries changes nothing. */
  lemma UnmatchedReplyIgnored(rs: seq<Reminder>, nid: int, text: string)
    requires forall j :: 0 <= j < |rs| ==> rs[j].notificationId != Some(nid)
    ensures ApplyReply(rs, nid, text) == rs
  {
  }

  /** A reply changes at most one row: the one its lookup finds. */
  lemma ReplyTouchesOnlyTheFoundRow(rs: seq<Reminder>, nid: int, text: string, j: nat)
    requires j < |rs| && ApplyReply(rs, nid, text)[j] != rs[j]
    ensures FindByNotification(rs, nid) == Some(j)
  {
  }

  /** Under unique routing, the reminder a reply finds is the one reminder
      that carries its notification id. */
  lemma ReplyFindsTheRoutedReminder(rs: seq<Reminder>, nid: int, i: nat)
    requires RoutesUnique(rs)
    requires i < |rs| && rs[i].notificationId == Some(nid)
    ensures FindByNotification(rs, nid) == Some(i)
  {
  }

  /** "y" or "Y" in reply to a reminder's notification completes it and
      clears its snooze; every other row is untouched. */
  lemma AcknowledgeCompletes(rs: seq<Reminder>, nid: int, text: string, k: nat)
    requires FindByNotification(rs, nid) == Some(k)
    requires text == "y" || text == "Y"
    ensures var out := ApplyReply(rs, nid, text);
      |out| == |rs| && out[k] == rs[k].(completed := true, snoozeUntil := "") &&
      forall j :: 0 <= j < |rs| && j != k ==> out[j] == rs[j]
  {
    LowerIsY(text);
  }

  /** A reply made only of digits (and not "y") stores that text verbatim as
      the snooze label; a reply that is neither changes nothing. */
  lemma ResnoozeVerbatim(rs: seq<Reminder>, nid: int, text: string, k: nat)
    requires FindByNotification(rs, nid) == Some(k)
    requires text != "y" && text != "Y"
    ensures var out := ApplyReply(rs, nid, text);
      (IsDigitString(text) ==>
         |out| == |rs| && out[k] == rs[k].(snoozeUntil := text) &&
         forall j :: 0 <= j < |rs| && j != k ==> out[j] == rs[j]) &&
      (!IsDigitString(text) ==> out == rs)
  {
    LowerIsY(text);
  }

  /** The lookup only looks at notification ids. */
  lemma FindSeesOnlyRoutes(a: seq<Reminder>, b: seq<Reminder>, nid: int)
    requires |a| == |b|
    requires forall j :: 0 <= j < |a| ==> a[j].notificationId == b[j].notificationId
    ensures FindByNotification(a, nid) == FindByNotification(b, nid)
  {
    var ka, kb := FindByNotification(a, nid), FindByNotification(b, nid);
    if ka.Some? {
      assert b[ka.value].notificationId == Some(nid);
    }
    if kb.Some? {
      assert a[kb.value].notificationId == Some(nid);
    }
  }

  /** A reply keeps keys and notification ids, and so the row count. */
  lemma ReplyKeepsIdentity(rs: seq<Reminder>, nid: int, text: string)
    ensures var out := ApplyReply(rs, nid, text);
      |out| == |rs| && forall j :: 0 <= j < |rs| ==>
        out[j].id == rs[j].id && out[j].notificationId == rs[j].notificationId &&
        out[j].name == rs[j].name && out[j].daily == rs[j].daily && out[j].time == rs[j].time
  {
  }

  /** Replaying a reply, as an at-least-once transport may, leaves the
      state the first delivery produced. */
  lemma ReplyReplayIsHarmless(rs: seq<Reminder>, nid: int, text: string)
    ensures ApplyReply(ApplyReply(rs, nid, text), nid, text) == ApplyReply(rs, nid, text)
  {
    var once := ApplyReply(rs, nid, text);
    ReplyKeepsIdentity(rs, nid, text);
    FindSeesOnlyRoutes(rs, once, nid);
  }

  // ---------------------------------------------------------------------
  // New reminders

  datatype Command = Command(name: string, time: string, daily: bool)

  /** `name, time, daily = message.split(delimiter)`: exactly three fields
      or a malformed command; the flag means "daily" only when it is "1". */
  function ParseCommand(text: string, delimiter: char): (r: Result<Command>)
    ensures r.Ok? <==> Occurrences(text, delimiter) == 2
    ensures r.Err? ==> r.error == MalformedCommand
  {
    SplitCount(text, delimiter);
    var parts := Split(text, delimiter);
    if |parts| == 3 then Ok(Command(parts[0], parts[1], parts[2] == "1"))
    else Err(MalformedCommand)
  }

  /** A command written from three delimiter-free fields parses back into
      those fields. */
  lemma ParseCommandRoundTrip(name: string, time: string, flag: string, delimiter: char)
    requires delimiter !in name && delimiter !in time && delimiter !in flag
    ensures ParseCommand(name + [delimiter] + time + [delimiter] + flag, delimiter)
      == Ok(Command(name, time, flag == "1"))
  {
    var parts := [name, time, flag];
    SplitJoin(parts, delimiter);
    assert parts[1..] == [time, flag] && parts[1..][1..] == [flag];
    assert Join(parts[1..], delimiter) == time + [delimiter] + flag;
    assert Join(parts, delimiter) == name + [delimiter] + (time + [delimiter] + flag);
    assert name + [delimiter] + (time + [delimiter] + flag) == name + [delimiter] + time + [delimiter] + flag;
  }

  /** The row a parsed command inserts: pending, not snoozed, never fired. */
  function NewReminder(key: int, c: Command): Reminder {
    Reminder(key, None, c.name, c.daily, c.time, "", false)
  }

  // ---------------------------------------------------------------------
  // Listing

  const NoRemindersLeft := "No reminders left today!"

  /** The listing filter: a pending row whose scheduled time or snooze
      label, read as an integer (0 if not a number), is after `now`. */
  predicate Listed(r: Reminder, nowValue: int) {
    !r.completed && (IntOrZero(r.time) > nowValue || IntOrZero(r.snoozeUntil) > nowValue)
  }

  function RowOf(r: Reminder): Row {
    Row(r.name, r.time, r.snoozeUntil)
  }

  /** The listed rows, in table order. */
  function ListRows(rs: seq<Reminder>, nowValue: int): (rows: seq<Row>)
    ensures |rows| <= |rs|
    decreases |rs|
  {
    if |rs| == 0 then []
    else (if Listed(rs[0], nowValue) then [RowOf(rs[0])] else []) + ListRows(rs[1..], nowValue)
  }

  /** A row is listed exactly when some reminder passing the filter has it. */
  lemma {:induction false} ListRowsMembers(rs: seq<Reminder>, nowValue: int, row: Row)
    ensures row in ListRows(rs, nowValue) <==>
      exists i :: 0 <= i < |rs| && Listed(rs[i], nowValue) && RowOf(rs[i]) == row
    decreases |rs|
  {
    if |rs| > 0 {
      ListRowsMembers(rs[1..], nowValue, row);
      if exists i :: 0 <= i < |rs[1..]| && Listed(rs[1..][i], nowValue) && RowOf(rs[1..][i]) == row {
        var i :| 0 <= i < |rs[1..]| && Listed(rs[1..][i], nowValue) && RowOf(rs[1..][i]) == row;
        assert rs[i + 1] == rs[1..][i];
      }
      if exists i :: 0 <= i < |rs| && Listed(rs[i], nowValue) && RowOf(rs[i]) == row {
        var i :| 0 <= i < |rs| && Listed(rs[i], nowValue) && RowOf(rs[i]) == row;
        if i > 0 {
          assert rs[1..][i - 1] == rs[i];
        }
      }
    }
  }

  /** The listing is empty exactly when no reminder passes the filter. */
  lemma {:induction false} ListRowsEmpty(rs: seq<Reminder>, nowValue: int)
    ensures ListRows(rs, nowValue) == [] <==> forall i :: 0 <= i < |rs| ==> !Listed(rs[i], nowValue)
    decreases |rs|
  {
    if |rs| > 0 {
      ListRowsEmpty(rs[1..], nowValue);
      assert forall i :: 1 <= i < |rs| ==> rs[i] == rs[1..][i - 1];
    }
  }

  /** For a reminder whose labels are well formed (the snooze possibly
      empty), the filter keeps it exactly when it is pending and its
      scheduled time or its snooze falls later today than `now`. */
  lemma ListedMeansLaterToday(r: Reminder, now: string)
    requires ValidLabel(now) && ValidLabel(r.time)
    requires r.snoozeUntil == "" || ValidLabel(r.snoozeUntil)
    ensures Listed(r, IntOrZero(now)) <==>
      !r.completed && (Decode(r.time) > Decode(now) ||
        (r.snoozeUntil != "" && Decode(r.snoozeUntil) > Decode(now)))
  {
    LabelOrder(now, r.time);
    LabelNumber(now);
    if r.snoozeUntil != "" {
      LabelOrder(now, r.snoozeUntil);
    }
  }

  /** What `list` sends: the fixed notice when nothing is left, otherwise
      the listed rows as an escaped table. */
  function ListReply(rs: seq<Reminder>, now: string): (reply: Outbound)
    ensures reply.Text? ==> reply.text == NoRemindersLeft
    ensures reply.EscapedTable? ==> 0 < |reply.rows| <= |rs|
  {
    var rows := ListRows(rs, IntOrZero(now));
    if rows == [] then Text(NoRemindersLeft) else EscapedTable(rows)
  }

  /** The notice is sent exactly when no pending reminder passes the filter. */
  lemma ListReplyNoticeWhenNothingLeft(rs: seq<Reminder>, now: string)
    ensures ListReply(rs, now) == Text(NoRemindersLeft) <==>
      forall i :: 0 <= i < |rs| ==> !Listed(rs[i], IntOrZero(now))
  {
    ListRowsEmpty(rs, IntOrZero(now));
  }

  // ---------------------------------------------------------------------
  // MarkdownV2 escaping of the rendered table

  const MarkdownSpecials := "_*[]()~`>#+-=|{}.!"

  predicate IsSpecial(c: char) {
    c in MarkdownSpecials
  }

  /** The `str.translate` step: a backslash before every special character. */
  function Escape(s: string): (t: string)
    ensures |t| == |s| + SpecialCount(s)
    decreases |s|
  {
    if |s| == 0 then []
    else (if IsSpecial(s[0]) then ['\\', s[0]] else [s[0]]) + Escape(s[1..])
  }

  /** The inverse reading: a backslash followed by a special character
      stands for that character. */
  function Unescape(t: string): string
    decreases |t|
  {
    if |t| >= 2 && t[0] == '\\' && IsSpecial(t[1]) then [t[1]] + Unescape(t[2..])
    else if |t| >= 1 then [t[0]] + Unescape(t[1..])
    else []
  }

  function SpecialCount(s: string): nat
    decreases |s|
  {
    if |s| == 0 then 0 else (if IsSpecial(s[0]) then 1 else 0) + SpecialCount(s[1..])
  }

  /** Escaped text never starts with a special character. */
  lemma EscapeStartsPlain(s: string)
    ensures Escape(s) == [] || !IsSpecial(Escape(s)[0])
  {
  }

  /** Escaping loses nothing: unescaping gives the original text back. */
  lemma {:induction false} EscapeRoundTrip(s: string)
    ensures Unescape(Escape(s)) == s
    decreases |s|
  {
    if |s| > 0 {
      EscapeRoundTrip(s[1..]);
      var rest := Escape(s[1..]);
      if IsSpecial(s[0]) {
        assert (['\\', s[0]] + rest)[2..] == rest;
      } else {
        EscapeStartsPlain(s[1..]);
        assert ([s[0]] + rest)[1..] == rest;
      }
      assert [s[0]] + s[1..] == s;
    }
  }

  /** Escaping adds exactly one character per special character, and every
      special character of the result follows a backslash. */
  lemma {:induction false} EscapeShape(s: string)
    ensures |Escape(s)| == |s| + SpecialCount(s)
    ensures forall i :: 0 <= i < |Escape(s)| && IsSpecial(Escape(s)[i]) ==>
      i > 0 && Escape(s)[i - 1] == '\\'
    decreases |s|
  {
    if |s| > 0 {
      EscapeShape(s[1..]);
      var head := if IsSpecial(s[0]) then ['\\', s[0]] else [s[0]];
      var rest := Escape(s[1..]);
      assert Escape(s) == head + rest;
      forall i | 0 <= i < |Escape(s)| && IsSpecial(Escape(s)[i])
        ensures i > 0 && Escape(s)[i - 1] == '\\'
      {
        if i >= |head| {
          assert Escape(s)[i] == rest[i - |head|];
          if i - |head| > 0 {
            assert Escape(s)[i - 1] == rest[i - |head| - 1];
          }
        }
      }
    }
  }

  // ---------------------------------------------------------------------
  // One message, and a batch

  /** What the batch has done so far: the session's rows and the messages
      sent while interpreting it. */
  datatype Batch = Batch(rows: seq<Reminder>, sent: seq<Outbound>)

  /** A batch state, and whether a malformed command stopped the batch. */
  datatype Progress = Progress(batch: Batch, halted: bool)

  /** A message that makes `process_responses` raise: not a reply, not
      `list`, and not three delimited fields. */
  predicate Malformed(r: Response, delimiter: char) {
    !IsReply(r) && Lower(r.message) != "list" && ParseCommand(r.message, delimiter).Err?
  }

  /** The effect of one inbound message (one turn of the loop at app.py:56). */
  function Step(b: Batch, r: Response, now: string, delimiter: char): (out: Result<Batch>)
    ensures out.Err? <==> Malformed(r, delimiter)
  {
    if IsReply(r) then Ok(b.(rows := ApplyReply(b.rows, r.replyId.value, r.message)))
    else if Lower(r.message) == "list" then Ok(b.(sent := b.sent + [ListReply(b.rows, now)]))
    else match ParseCommand(r.message, delimiter)
      case Err(e) => Err(e)
      case Ok(c) => Ok(b.(rows := b.rows + [NewReminder(NextKey(b.rows), c)]))
  }

  /** Interpreting `responses` in order from `b`, stopping at the first
      malformed command. */
  function Run(b: Batch, responses: seq<Response>, now: string, delimiter: char): Progress
    decreases |responses|
  {
    if |responses| == 0 then Progress(b, false)
    else
      var p := Run(b, responses[..|responses| - 1], now, delimiter);
      if p.halted then p
      else match Step(p.batch, responses[|responses| - 1], now, delimiter)
        case Err(_) => Progress(p.batch, true)
        case Ok(next) => Progress(next, false)
  }

  /** A well-formed new-reminder message appends one pending, unsnoozed row
      with a fresh key and the daily flag "1" means; existing rows and sent
      messages are untouched. */
  lemma NewReminderAppends(b: Batch, name: string, time: string, flag: string, now: string, delimiter: char)
    requires delimiter !in name && delimiter !in time && delimiter !in flag
    requires Lower(name + [delimiter] + time + [delimiter] + flag) != "list"
    ensures var text := name + [delimiter] + time + [delimiter] + flag;
      var out := Step(b, Response(text, None), now, delimiter);
      out.Ok? && out.value.sent == b.sent &&
      |out.value.rows| == |b.rows| + 1 && out.value.rows[..|b.rows|] == b.rows &&
      var r := out.value.rows[|b.rows|];
      r.name == name && r.time == time && r.daily == (flag == "1") &&
      !r.completed && r.snoozeUntil == "" && r.notificationId.None? &&
      forall j :: 0 <= j < |b.rows| ==> b.rows[j].id != r.id
  {
    ParseCommandRoundTrip(name, time, flag, delimiter);
  }

  /** The example command "Call mom|0900|1" creates a daily reminder at 09:00. */
  lemma CallMomExample(b: Batch, now: string)
    ensures var out := Step(b, Response("Call mom|0900|1", None), now, '|');
      out.Ok? && out.value.rows == b.rows + [Reminder(NextKey(b.rows), None, "Call mom", true, "0900", "", false)]
  {
    var text := "Call mom|0900|1";
    assert text == "Call mom" + ['|'] + "0900" + ['|'] + "1";
    ParseCommandRoundTrip("Call mom", "0900", "1", '|');
    LowerIsList(text);
    assert Lower(text) != "list";
    assert !IsReply(Response(text, None));
  }

  /** `list` sends one reply and changes no row. */
  lemma ListSendsOneReply(b: Batch, message: string, now: string, delimiter: char)
    requires Lower(message) == "list"
    ensures Step(b, Response(message, None), now, delimiter)
      == Ok(b.(sent := b.sent + [ListReply(b.rows, now)]))
  {
  }

  /** Replaying a reply message is harmless (the same state results). */
  lemma StepReplyReplay(b: Batch, r: Response, now: string, delimiter: char)
    requires IsReply(r)
    ensures Step(Step(b, r, now, delimiter).value, r, now, delimiter) == Step(b, r, now, delimiter)
  {
    ReplyReplayIsHarmless(b.rows, r.replyId.value, r.message);
  }

  /** A batch never removes a row and only appends to the messages sent. */
  lemma {:induction false} RunOnlyAppends(b: Batch, responses: seq<Response>, now: string, delimiter: char)
    ensures var p := Run(b, responses, now, delimiter);
      |b.rows| <= |p.batch.rows| &&
      |b.sent| <= |p.batch.sent| && p.batch.sent[..|b.sent|] == b.sent
    decreases |responses|
  {
    if |responses| > 0 {
      RunOnlyAppends(b, responses[..|responses| - 1], now, delimiter);
    }
  }

  /** A batch has stopped once its prefix has, or when its last message is
      malformed. */
  lemma RunHaltsAtLast(b: Batch, responses: seq<Response>, now: string, delimiter: char)
    requires |responses| > 0
    ensures Run(b, responses, now, delimiter).halted <==>
      Run(b, responses[..|responses| - 1], now, delimiter).halted ||
      Malformed(responses[|responses| - 1], delimiter)
  {
  }

  /** A batch stops exactly when it contains a malformed command. */
  lemma {:induction false} RunHaltsIffMalformed(b: Batch, responses: seq<Response>, now: string, delimiter: char)
    ensures Run(b, responses, now, delimiter).halted <==>
      exists i :: 0 <= i < |responses| && Malformed(responses[i], delimiter)
    decreases |responses|
  {
    if |responses| > 0 {
      var init := responses[..|responses| - 1];
      RunHaltsIffMalformed(b, init, now, delimiter);
      RunHaltsAtLast(b, responses, now, delimiter);
      if exists i :: 0 <= i < |init| && Malformed(init[i], delimiter) {
        var i :| 0 <= i < |init| && Malformed(init[i], delimiter);
        assert responses[i] == init[i];
      }
      if exists i :: 0 <= i < |responses| && Malformed(responses[i], delimiter) {
        var i :| 0 <= i < |responses| && Malformed(responses[i], delimiter);
        if i < |init| {
          assert init[i] == responses[i];
        }
      }
    }
  }

  /** Once stopped, later messages do not change the outcome. */
  lemma {:induction false} RunHaltSticks(b: Batch, responses: seq<Response>, j: nat, now: string, delimiter: char)
    requires j <= |responses|
    requires Run(b, responses[..j], now, delimiter).halted
    ensures Run(b, responses, now, delimiter) == Run(b, responses[..j], now, delimiter)
    decreases |responses| - j
  {
    if j < |responses| {
      var init := responses[..|responses| - 1];
      assert init[..j] == responses[..j];
      RunHaltSticks(b, init, j, now, delimiter);
    } else {
      assert responses[..j] == responses;
    }
  }

  /** One message keeps keys and notification ids unique and within the
      ids issued so far. */
  lemma StepKeepsRouting(b: Batch, r: Response, now: string, delimiter: char, issued: int)
    requires WellFormed(b.rows) && RoutesIssued(b.rows, issued)
    requires Step(b, r, now, delimiter).Ok?
    ensures var out := Step(b, r, now, delimiter).value;
      WellFormed(out.rows) && RoutesIssued(out.rows, issued)
  {
    if IsReply(r) {
      ReplyKeepsIdentity(b.rows, r.replyId.value, r.message);
    }
  }

  /** A batch keeps keys and notification ids unique and within the ids
      issued so far. */
  lemma {:induction false} RunKeepsRouting(b: Batch, responses: seq<Response>, now: string, delimiter: char, issued: int)
    requires WellFormed(b.rows) && RoutesIssued(b.rows, issued)
    ensures var p := Run(b, responses, now, delimiter);
      WellFormed(p.batch.rows) && RoutesIssued(p.batch.rows, issued)
    decreases |responses|
  {
    if |responses| > 0 {
      var init := responses[..|responses| - 1];
      RunKeepsRouting(b, init, now, delimiter, issued);
      var p := Run(b, init, now, delimiter);
      if !p.halted && Step(p.batch, responses[|responses| - 1], now, delimiter).Ok? {
        StepKeepsRouting(p.batch, responses[|responses| - 1], now, delimiter, issued);
      }
    }
  }
}
