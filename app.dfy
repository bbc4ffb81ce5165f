/** The stateful side of the bot: the committed table, a session (the unit
    of work whose queries see its own uncommitted changes), the outbound
    gateway, the three `process_*` passes and one turn of the poll loop. */
module App {
  import opened Common
  import opened Text
  import opened TimeLabel
  import opened Records
  import opened Interpreter
  import opened Trigger

  /** The `scheduled_reminders` table as last committed. */
  class Database {
    var table: seq<Reminder>

    constructor (table: seq<Reminder>)
      ensures this.table == table
    {
      this.table := table;
    }
  }

  /** A unit of work over a database: `rows` is what its queries see. */
  class Session {
    const db: Database
    var rows: seq<Reminder>

    constructor Open(db: Database)
      ensures this.db == db && rows == db.table
    {
      this.db := db;
      rows := db.table;
    }

    method Commit()
      modifies db
      ensures db.table == rows
    {
      db.table := rows;
    }
  }

  /** The send side of the chat transport: every message sent, in order.
      A message's id is its position in the outbox, counting from 1, so
      every id handed out is fresh. */
  class Gateway {
    var outbox: seq<Outbound>

    constructor ()
      ensures outbox == []
    {
      outbox := [];
    }

    method Send(m: Outbound) returns (id: int)
      modifies this
      ensures outbox == old(outbox) + [m] && id == |outbox|
    {
      outbox := outbox + [m];
      id := |outbox|;
    }
  }

  /** `process_responses`: interprets the batch in order against the
      session and commits. A malformed new-reminder command raises out of
      the loop: nothing is committed, though replies to `list` sent before
      it have gone out. */
  method ProcessResponses(session: Session, gateway: Gateway, responses: seq<Response>, now: string, delimiter: char)
    returns (ok: bool)
    requires ValidLabel(now)
    modifies session, session.db, gateway
    ensures var p := Run(Batch(old(session.rows), []), responses, now, delimiter);
      ok == !p.halted && session.rows == p.batch.rows &&
      gateway.outbox == old(gateway.outbox) + p.batch.sent &&
      session.db.table == if ok then p.batch.rows else old(session.db.table)
  {
    ghost var start := Batch(session.rows, []);
    ghost var sent: seq<Outbound> := [];
    var i := 0;
    while i < |responses|
      invariant 0 <= i <= |responses|
      invariant Run(start, responses[..i], now, delimiter) == Progress(Batch(session.rows, sent), false)
      invariant gateway.outbox == old(gateway.outbox) + sent
      invariant session.db.table == old(session.db.table)
    {
      var response := responses[i];
      assert responses[..i + 1][..i] == responses[..i];
      if IsReply(response) {
        var found := FindByNotification(session.rows, response.replyId.value);
        if found.Some? {
          var k := found.value;
          if Lower(response.message) == "y" {
            session.rows := session.rows[k := session.rows[k].(completed := true, snoozeUntil := "")];
          } else if IsDigitString(response.message) {
            session.rows := session.rows[k := session.rows[k].(snoozeUntil := response.message)];
          }
        }
      } else if Lower(response.message) == "list" {
        var reply := ListReply(session.rows, now);
        var _ := gateway.Send(reply);
        sent := sent + [reply];
      } else {
        var command := ParseCommand(response.message, delimiter);
        if command.Err? {
          RunHaltSticks(start, responses, i + 1, now, delimiter);
          return false;
        }
        session.rows := session.rows + [NewReminder(NextKey(session.rows), command.value)];
      }
      i := i + 1;
    }
    assert responses[..i] == responses;
    session.Commit();
    ok := true;
  }

  /** `process_reminders`: fires every pending reminder whose due label is
      `now`, re-arms it `snoozeMinutes` later, and commits. */
  method ProcessReminders(session: Session, gateway: Gateway, now: string, snoozeMinutes: int)
    requires ValidLabel(now)
    modifies session, session.db, gateway
    ensures session.rows == TriggerPass(old(session.rows), now, SnoozeDeadline(now, snoozeMinutes), |old(gateway.outbox)|)
    ensures gateway.outbox == old(gateway.outbox) + Notices(old(session.rows), now)
    ensures session.db.table == session.rows
  {
    ghost var rs := session.rows;
    ghost var outbox0 := gateway.outbox;
    ghost var base := |outbox0|;
    ghost var deadline := SnoozeDeadline(now, snoozeMinutes);
    var reminders := session.rows;
    var i := 0;
    while i < |reminders|
      invariant 0 <= i <= |rs| == |reminders|
      invariant forall j :: 0 <= j < i ==> reminders[j] == FireAt(rs, j, now, deadline, base)
      invariant reminders[i..] == rs[i..]
      invariant gateway.outbox == outbox0 + Notices(rs[..i], now)
    {
      var reminder := reminders[i];
      assert reminder == rs[i] by {
        assert reminders[i..][0] == rs[i..][0];
      }
      NoticesExtend(rs, i, now);
      var alertTime := DueLabel(reminder);
      if !reminder.completed && alertTime == now {
        var id := gateway.Send(Notice(reminder));
        reminders := reminders[i := reminder.(notificationId := Some(id), snoozeUntil := SnoozeDeadline(now, snoozeMinutes))];
      }
      assert reminders[i + 1..] == rs[i + 1..];
      i := i + 1;
    }
    assert rs[..i] == rs;
    session.rows := reminders;
    session.Commit();
  }

  /** `process_reset` as written: at `resetTime` the bulk update clears
      `completed` on the daily rows of the session, and nothing commits it. */
  method ProcessReset(session: Session, now: string, resetTime: string)
    modifies session
    ensures session.rows == if now == resetTime then ResetDaily(old(session.rows)) else old(session.rows)
    ensures session.db.table == old(session.db.table)
  {
    if now == resetTime {
      session.rows := ResetDaily(session.rows);
    }
  }

  /** `process_reset` with the commit it lacks. */
  method ProcessResetCommitted(session: Session, now: string, resetTime: string)
    modifies session, session.db
    ensures session.rows == if now == resetTime then ResetDaily(old(session.rows)) else old(session.rows)
    ensures session.db.table == if now == resetTime then session.rows else old(session.db.table)
  {
    if now == resetTime {
      session.rows := ResetDaily(session.rows);
      session.Commit();
    }
  }

  /** What one turn of the poll loop leaves behind: the committed table, the
      messages sent, and whether the turn ran to its end. */
  datatype CycleResult = CycleResult(table: seq<Reminder>, sent: seq<Outbound>, finished: bool)

  /** One turn as written (app.py:140-147): responses, then the trigger
      pass, then the reset, whose update is discarded when the session
      closes. `base` counts the ids the gateway issued before the turn. */
  function CycleOutcomeAsWritten(table: seq<Reminder>, responses: seq<Response>, now: string, config: Config, base: nat): (r: CycleResult)
    requires ValidLabel(now)
    ensures !r.finished ==> r.table == table
  {
    var p := Run(Batch(table, []), responses, now, config.delimiter);
    if p.halted then CycleResult(table, p.batch.sent, false)
    else
      var deadline := SnoozeDeadline(now, config.snoozeMinutes);
      CycleResult(TriggerPass(p.batch.rows, now, deadline, base + |p.batch.sent|),
                  p.batch.sent + Notices(p.batch.rows, now), true)
  }

  /** One turn with the reset committed. */
  function CycleOutcome(table: seq<Reminder>, responses: seq<Response>, now: string, config: Config, base: nat): (r: CycleResult)
    requires ValidLabel(now)
    ensures var w := CycleOutcomeAsWritten(table, responses, now, config, base);
      r.finished == w.finished && r.sent == w.sent && |r.table| == |w.table|
    ensures now != config.resetTime ==> r == CycleOutcomeAsWritten(table, responses, now, config, base)
  {
    var r := CycleOutcomeAsWritten(table, responses, now, config, base);
    if r.finished && now == config.resetTime then r.(table := ResetDaily(r.table)) else r
  }

  /** The first two passes of a turn, on an open session whose rows are
      the committed table: the responses, then, unless they raised, the
      trigger pass. */
  method RespondAndFire(session: Session, gateway: Gateway, responses: seq<Response>, now: string, config: Config)
    returns (finished: bool)
    requires ValidLabel(now) && session.rows == session.db.table
    modifies session, session.db, gateway
    ensures var r := CycleOutcomeAsWritten(old(session.db.table), responses, now, config, |old(gateway.outbox)|);
      finished == r.finished && session.db.table == r.table && gateway.outbox == old(gateway.outbox) + r.sent
    ensures finished ==> session.rows == session.db.table
  {
    ghost var p := Run(Batch(session.rows, []), responses, now, config.delimiter);
    ghost var outbox0 := gateway.outbox;
    finished := ProcessResponses(session, gateway, responses, now, config.delimiter);
    if !finished {
      return;
    }
    assert session.rows == p.batch.rows && gateway.outbox == outbox0 + p.batch.sent;
    ProcessReminders(session, gateway, now, config.snoozeMinutes);
    assert gateway.outbox == outbox0 + (p.batch.sent + Notices(p.batch.rows, now));
  }

  /** One turn of the poll loop as written (app.py:140-147). */
  method RunCycleAsWritten(db: Database, gateway: Gateway, responses: seq<Response>, now: string, config: Config)
    returns (finished: bool)
    requires ValidLabel(now)
    modifies db, gateway
    ensures var r := CycleOutcomeAsWritten(old(db.table), responses, now, config, |old(gateway.outbox)|);
      finished == r.finished && db.table == r.table && gateway.outbox == old(gateway.outbox) + r.sent
  {
    var session := new Session.Open(db);
    finished := RespondAndFire(session, gateway, responses, now, config);
    if finished {
      ProcessReset(session, now, config.resetTime);
    }
  }

  /** One turn of the poll loop, committing the reset. */
  method RunCycle(db: Database, gateway: Gateway, responses: seq<Response>, now: string, config: Config)
    returns (finished: bool)
    requires ValidLabel(now)
    modifies db, gateway
    ensures var r := CycleOutcome(old(db.table), responses, now, config, |old(gateway.outbox)|);
      finished == r.finished && db.table == r.table && gateway.outbox == old(gateway.outbox) + r.sent
  {
    var session := new Session.Open(db);
    finished := RespondAndFire(session, gateway, responses, now, config);
    if finished {
      ProcessResetCommitted(session, now, config.resetTime);
    }
  }

  /** As written, the reset never reaches the table: a daily reminder
      acknowledged earlier is still completed after the turn at the reset
      time, where the committed reset makes it pending again. */
  lemma ResetIsRolledBackAsWritten()
    ensures var table := [Reminder(1, None, "Stretch", true, "0900", "", true)];
      var config := Config(10, "0400", '|');
      CycleOutcomeAsWritten(table, [], "0400", config, 0).table[0].completed &&
      !CycleOutcome(table, [], "0400", config, 0).table[0].completed
  {
    var table := [Reminder(1, None, "Stretch", true, "0900", "", true)];
    var config := Config(10, "0400", '|');
    assert Run(Batch(table, []), [], "0400", '|') == Progress(Batch(table, []), false);
    TriggerPassEffect(table, "0400", SnoozeDeadline("0400", 10), 0);
  }

  /** With the reset committed, after a turn at the reset time that runs to
      its end, no daily reminder in the table is completed. */
  lemma CycleResetsDailyReminders(table: seq<Reminder>, responses: seq<Response>, now: string, config: Config, base: nat)
    requires ValidLabel(now) && now == config.resetTime
    requires CycleOutcome(table, responses, now, config, base).finished
    ensures var r := CycleOutcome(table, responses, now, config, base);
      forall i :: 0 <= i < |r.table| && r.table[i].daily ==> !r.table[i].completed
  {
    var w := CycleOutcomeAsWritten(table, responses, now, config, base);
    ResetDailyEffect(w.table);
  }

  /** A turn keeps keys and notification ids unique and every stored
      notification id among those the gateway has issued, so over any
      number of turns a reply is attributed to at most one reminder. */
  lemma CycleKeepsRouting(table: seq<Reminder>, responses: seq<Response>, now: string, config: Config, base: nat)
    requires ValidLabel(now)
    requires WellFormed(table) && RoutesIssued(table, base)
    ensures var r := CycleOutcome(table, responses, now, config, base);
      WellFormed(r.table) && RoutesIssued(r.table, base + |r.sent|)
  {
    var p := Run(Batch(table, []), responses, now, config.delimiter);
    var w := CycleOutcomeAsWritten(table, responses, now, config, base);
    if p.halted {
      assert w.table == table;
      RoutesIssuedGrows(table, base, base + |w.sent|);
    } else {
      RunKeepsRouting(Batch(table, []), responses, now, config.delimiter, base);
      var issued := base + |p.batch.sent|;
      var deadline := SnoozeDeadline(now, config.snoozeMinutes);
      TriggerKeepsRouting(p.batch.rows, now, deadline, issued);
      assert w.table == TriggerPass(p.batch.rows, now, deadline, issued);
      assert base + |w.sent| == issued + |Notices(p.batch.rows, now)|;
      ResetKeepsRouting(w.table, base + |w.sent|);
    }
  }

  /** The daily lifecycle: once acknowledged a daily reminder cannot fire,
      and after the reset it fires again at its scheduled time. */
  lemma AcknowledgedDailyReminderReturns(rs: seq<Reminder>, nid: int, k: nat, now: string)
    requires FindByNotification(rs, nid) == Some(k)
    requires rs[k].daily
    ensures var acked := ApplyReply(rs, nid, "y");
      !Fires(acked[k], now) && Fires(ResetDaily(acked)[k], rs[k].time)
  {
    AcknowledgeCompletes(rs, nid, "y", k);
    var acked := ApplyReply(rs, nid, "y");
    ResetDailyEffect(acked);
  }
}
