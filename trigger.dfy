/** The trigger engine of `process_reminders` and the daily sweep of
    `process_reset`, as functions of the rows they start from. */
module Trigger {
  import opened Common
  import opened TimeLabel
  import opened Records

  /** The effective due label: the snooze when set, the scheduled time
      otherwise. */
  function DueLabel(r: Reminder): (d: string)
    ensures d == r.time || d == r.snoozeUntil
    ensures d == "" ==> r.time == "" && r.snoozeUntil == ""
  {
    if r.snoozeUntil != "" then r.snoozeUntil else r.time
  }

  /** A reminder fires when it is pending and its due label is exactly `now`. */
  predicate Fires(r: Reminder, now: string) {
    !r.completed && DueLabel(r) == now
  }

  function Notice(r: Reminder): Outbound {
    Text("Reminder: " + r.name)
  }

  /** The notifications a pass over `rs` sends, in table order. */
  function Notices(rs: seq<Reminder>, now: string): seq<Outbound>
    decreases |rs|
  {
    if |rs| == 0 then []
    else Notices(rs[..|rs| - 1], now) + (if Fires(rs[|rs| - 1], now) then [Notice(rs[|rs| - 1])] else [])
  }

  /** Row `i` after the pass: a firing row takes the id of the notification
      sent for it (the gateway had issued `base` ids before the pass) and is
      re-armed at `deadline`; any other row is unchanged. */
  function FireAt(rs: seq<Reminder>, i: nat, now: string, deadline: string, base: int): (r: Reminder)
    requires i < |rs|
    ensures r == rs[i].(notificationId := r.notificationId, snoozeUntil := r.snoozeUntil)
    ensures r != rs[i] ==> Fires(rs[i], now) && r.snoozeUntil == deadline
  {
    if Fires(rs[i], now) then
      rs[i].(notificationId := Some(base + |Notices(rs[..i], now)| + 1), snoozeUntil := deadline)
    else rs[i]
  }

  /** The rows after one trigger pass. */
  function TriggerPass(rs: seq<Reminder>, now: string, deadline: string, base: int): (out: seq<Reminder>)
    ensures |out| == |rs|
  {
    seq(|rs|, i requires 0 <= i < |rs| => FireAt(rs, i, now, deadline, base))
  }

  /** Extending a prefix by one row adds that row's notice if it fires. */
  lemma NoticesExtend(rs: seq<Reminder>, i: nat, now: string)
    requires i < |rs|
    ensures Notices(rs[..i + 1], now) ==
      Notices(rs[..i], now) + (if Fires(rs[i], now) then [Notice(rs[i])] else [])
  {
    assert rs[..i + 1][..i] == rs[..i] && rs[..i + 1][i] == rs[i];
  }

  /** The notices of a shorter prefix begin the notices of a longer one. */
  lemma {:induction false} NoticesPrefix(rs: seq<Reminder>, i: nat, j: nat, now: string)
    requires i <= j <= |rs|
    ensures |Notices(rs[..i], now)| <= |Notices(rs[..j], now)|
    ensures Notices(rs[..j], now)[..|Notices(rs[..i], now)|] == Notices(rs[..i], now)
    decreases j - i
  {
    if i < j {
      NoticesPrefix(rs, i, j - 1, now);
      assert rs[..j][..j - 1] == rs[..j - 1];
    }
  }

  /** A firing row's notice is in the output, at the position counted by the
      firing rows before it. */
  lemma NoticeOfFiringRow(rs: seq<Reminder>, i: nat, now: string)
    requires i < |rs| && Fires(rs[i], now)
    ensures |Notices(rs[..i], now)| < |Notices(rs, now)|
    ensures Notices(rs, now)[|Notices(rs[..i], now)|] == Notice(rs[i])
  {
    assert rs[..i + 1][..i] == rs[..i];
    NoticesPrefix(rs, i + 1, |rs|, now);
    assert rs[..|rs|] == rs;
  }

  /** No notice is sent exactly when no row fires. */
  lemma {:induction false} NoticesEmpty(rs: seq<Reminder>, now: string)
    ensures Notices(rs, now) == [] <==> forall i :: 0 <= i < |rs| ==> !Fires(rs[i], now)
    decreases |rs|
  {
    if |rs| > 0 {
      var init := rs[..|rs| - 1];
      NoticesEmpty(init, now);
      assert forall i :: 0 <= i < |init| ==> init[i] == rs[i];
    }
  }

  /** What the pass does to each row: a firing row gets a notification id
      above every id issued before the pass and within those issued during
      it, and its snooze becomes `deadline`; no row's completion changes;
      a row that does not fire is unchanged. */
  lemma TriggerPassEffect(rs: seq<Reminder>, now: string, deadline: string, base: int)
    ensures var out := TriggerPass(rs, now, deadline, base);
      forall i :: 0 <= i < |rs| ==>
        out[i].id == rs[i].id && out[i].name == rs[i].name && out[i].daily == rs[i].daily &&
        out[i].time == rs[i].time && out[i].completed == rs[i].completed &&
        (Fires(rs[i], now) ==>
           out[i].snoozeUntil == deadline && out[i].notificationId.Some? &&
           base < out[i].notificationId.value <= base + |Notices(rs, now)|) &&
        (!Fires(rs[i], now) ==> out[i] == rs[i])
  {
    forall i | 0 <= i < |rs| && Fires(rs[i], now)
      ensures |Notices(rs[..i], now)| < |Notices(rs, now)|
    {
      NoticeOfFiringRow(rs, i, now);
    }
  }

  /** Rows that fire in one pass get distinct notification ids, increasing
      in table order. */
  lemma FiredIdsIncrease(rs: seq<Reminder>, now: string, deadline: string, base: int, i: nat, j: nat)
    requires i < j < |rs| && Fires(rs[i], now) && Fires(rs[j], now)
    ensures var out := TriggerPass(rs, now, deadline, base);
      out[i].notificationId.value < out[j].notificationId.value
  {
    NoticesPrefix(rs, i + 1, j, now);
    assert rs[..i + 1][..i] == rs[..i] && rs[..i + 1][i] == rs[i];
    assert |Notices(rs[..i + 1], now)| == |Notices(rs[..i], now)| + 1;
    var out := TriggerPass(rs, now, deadline, base);
    assert out[i] == FireAt(rs, i, now, deadline, base);
    assert out[j] == FireAt(rs, j, now, deadline, base);
    assert out[i].notificationId.value == base + |Notices(rs[..i], now)| + 1;
    assert out[j].notificationId.value == base + |Notices(rs[..j], now)| + 1;
    assert |Notices(rs[..i + 1], now)| <= |Notices(rs[..j], now)|;
  }

  /** The pass keeps keys and notification ids unique, and every id stays
      among those the gateway has issued. */
  lemma TriggerKeepsRouting(rs: seq<Reminder>, now: string, deadline: string, base: nat)
    requires WellFormed(rs) && RoutesIssued(rs, base)
    ensures var out := TriggerPass(rs, now, deadline, base);
      WellFormed(out) && RoutesIssued(out, base + |Notices(rs, now)|)
  {
    var out := TriggerPass(rs, now, deadline, base);
    TriggerPassEffect(rs, now, deadline, base);
    forall i, j | 0 <= i < j < |out| && out[i].notificationId.Some?
      ensures out[i].notificationId != out[j].notificationId
    {
      if Fires(rs[i], now) && Fires(rs[j], now) {
        FiredIdsIncrease(rs, now, deadline, base, i, j);
      } else if Fires(rs[i], now) {
        assert out[j] == rs[j];
      } else if Fires(rs[j], now) {
        assert out[i] == rs[i];
      } else {
        assert out[i] == rs[i] && out[j] == rs[j];
      }
    }
    forall i | 0 <= i < |out| && out[i].notificationId.Some?
      ensures 1 <= out[i].notificationId.value <= base + |Notices(rs, now)|
    {
      if !Fires(rs[i], now) {
        assert out[i] == rs[i];
      }
    }
  }

  /** With a snooze that is not a whole number of days, a second pass in the
      same minute sends nothing: every row that fired now waits for its
      deadline. */
  lemma NoRefireWithinMinute(rs: seq<Reminder>, now: string, minutes: int, base: int)
    requires ValidLabel(now) && minutes % MinutesPerDay != 0
    ensures var deadline := SnoozeDeadline(now, minutes);
      Notices(TriggerPass(rs, now, deadline, base), now) == []
  {
    var deadline := SnoozeDeadline(now, minutes);
    var out := TriggerPass(rs, now, deadline, base);
    SnoozeMovesLabel(now, minutes);
    TriggerPassEffect(rs, now, deadline, base);
    assert forall i :: 0 <= i < |out| ==> !Fires(out[i], now);
    NoticesEmpty(out, now);
  }

  /** The bulk update of `process_reset`: every daily row becomes pending. */
  function ResetDaily(rs: seq<Reminder>): (out: seq<Reminder>)
    ensures |out| == |rs|
  {
    seq(|rs|, i requires 0 <= i < |rs| => if rs[i].daily then rs[i].(completed := false) else rs[i])
  }

  /** After the reset a row is completed exactly when it was completed and
      is not daily; nothing else about any row changes. */
  lemma ResetDailyEffect(rs: seq<Reminder>)
    ensures var out := ResetDaily(rs);
      forall i :: 0 <= i < |rs| ==>
        out[i].completed == (rs[i].completed && !rs[i].daily) &&
        out[i] == rs[i].(completed := out[i].completed)
  {
  }

  /** Resetting twice is the same as resetting once. */
  lemma ResetDailyIdempotent(rs: seq<Reminder>)
    ensures ResetDaily(ResetDaily(rs)) == ResetDaily(rs)
  {
  }

  /** The reset keeps keys and notification ids. */
  lemma ResetKeepsRouting(rs: seq<Reminder>, issued: int)
    requires WellFormed(rs) && RoutesIssued(rs, issued)
    ensures WellFormed(ResetDaily(rs)) && RoutesIssued(ResetDaily(rs), issued)
  {
  }
}
