/** The "HHMM" time-label codec: `decode_timestring`, `encode_timestring`
    and the snooze arithmetic of the trigger pass. A decoded label is the
    minute of the day it names; the calendar date that `strptime` attaches
    plays no part, since only the "%H%M" rendering is ever kept. */
module TimeLabel {
  import opened Text

  const MinutesPerDay: nat := 1440

  /** A well-formed label: four digits, hour below 24, minute below 60. */
  predicate ValidLabel(s: string) {
    |s| == 4 && IsDigitString(s) &&
    DigitValue(s[0]) * 10 + DigitValue(s[1]) < 24 &&
    DigitValue(s[2]) * 10 + DigitValue(s[3]) < 60
  }

  function Hour(s: string): nat
    requires ValidLabel(s)
  {
    DigitValue(s[0]) * 10 + DigitValue(s[1])
  }

  function Minute(s: string): nat
    requires ValidLabel(s)
  {
    DigitValue(s[2]) * 10 + DigitValue(s[3])
  }

  /** `decode_timestring`: the minute of the day a label names. */
  function Decode(s: string): (m: nat)
    requires ValidLabel(s)
    ensures m < MinutesPerDay
  {
    Hour(s) * 60 + Minute(s)
  }

  /** `encode_timestring`: the zero-padded label of a minute of the day. */
  function Encode(m: nat): (s: string)
    requires m < MinutesPerDay
    ensures ValidLabel(s)
  {
    var h, mm := m / 60, m % 60;
    [DigitChar(h / 10), DigitChar(h % 10), DigitChar(mm / 10), DigitChar(mm % 10)]
  }

  /** Decoding an encoded minute gives the minute back. */
  lemma DecodeEncode(m: nat)
    requires m < MinutesPerDay
    ensures Decode(Encode(m)) == m
  {
    var s := Encode(m);
    var h, mm := m / 60, m % 60;
    assert Hour(s) == h && Minute(s) == mm;
  }

  /** Every valid label is the encoding of the minute it decodes to. */
  lemma EncodeDecode(s: string)
    requires ValidLabel(s)
    ensures Encode(Decode(s)) == s
  {
    var m := Decode(s);
    assert m / 60 == Hour(s) && m % 60 == Minute(s);
    var e := Encode(m);
    assert e[0] == s[0] && e[1] == s[1] && e[2] == s[2] && e[3] == s[3];
  }

  /** Two valid labels naming the same minute are the same label. */
  lemma DecodeInjective(a: string, b: string)
    requires ValidLabel(a) && ValidLabel(b) && Decode(a) == Decode(b)
    ensures a == b
  {
    EncodeDecode(a);
    EncodeDecode(b);
  }

  /** The minute of the day reached `n` minutes after minute `m`, wrapping
      past midnight in either direction (adding a `timedelta` and keeping
      only the time of day). */
  function AddMinutes(m: nat, n: int): (r: nat)
    requires m < MinutesPerDay
    ensures r < MinutesPerDay
  {
    (m + n) % MinutesPerDay
  }

  /** The snooze deadline of app.py:115: `now` plus `minutes`, modulo one
      day, as a label. */
  function SnoozeDeadline(now: string, minutes: int): (r: string)
    requires ValidLabel(now)
    ensures ValidLabel(r)
  {
    Encode(AddMinutes(Decode(now), minutes))
  }

  /** The deadline names the minute `minutes` after `now`, counted round
      the clock: it differs from `now` plus `minutes` by whole days. */
  lemma SnoozeDeadlineMeaning(now: string, minutes: int)
    requires ValidLabel(now)
    ensures Decode(SnoozeDeadline(now, minutes)) < MinutesPerDay
    ensures (Decode(SnoozeDeadline(now, minutes)) - Decode(now) - minutes) % MinutesPerDay == 0
  {
    var m := Decode(now);
    var r := AddMinutes(m, minutes);
    DecodeEncode(r);
    assert m + minutes == ((m + minutes) / MinutesPerDay) * MinutesPerDay + r;
    assert r - m - minutes == -((m + minutes) / MinutesPerDay) * MinutesPerDay;
  }

  /** Ten minutes after 23:55 is 00:05. */
  lemma SnoozePastMidnight()
    ensures SnoozeDeadline("2355", 10) == "0005"
  {
    assert Decode("2355") == 1435;
    assert AddMinutes(1435, 10) == 5;
  }

  /** The deadline equals `now` exactly when the snooze is a whole number
      of days. */
  lemma SnoozeMovesLabel(now: string, minutes: int)
    requires ValidLabel(now)
    ensures SnoozeDeadline(now, minutes) == now <==> minutes % MinutesPerDay == 0
  {
    var m := Decode(now);
    if minutes % MinutesPerDay == 0 {
      assert (m + minutes) % MinutesPerDay == m;
      EncodeDecode(now);
    }
    if SnoozeDeadline(now, minutes) == now {
      DecodeEncode(AddMinutes(m, minutes));
      assert (m + minutes) % MinutesPerDay == m;
      assert (m + minutes) == ((m + minutes) / MinutesPerDay) * MinutesPerDay + m;
      assert minutes == ((m + minutes) / MinutesPerDay) * MinutesPerDay;
    }
  }

  /** `int(label)` of a valid label is its hour times 100 plus its minute. */
  lemma LabelNumber(s: string)
    requires ValidLabel(s)
    ensures IntOrZero(s) == Hour(s) * 100 + Minute(s)
  {
    var d0, d1, d2, d3 := DigitValue(s[0]), DigitValue(s[1]), DigitValue(s[2]), DigitValue(s[3]);
    assert s[..4] == s && s[..3][..2] == s[..2] && s[..2][..1] == s[..1];
    assert DigitsValue(s[..1]) == d0 by {
      assert s[..1][..0] == [];
    }
    assert DigitsValue(s[..2]) == d0 * 10 + d1;
    assert DigitsValue(s[..3]) == (d0 * 10 + d1) * 10 + d2;
    assert DigitsValue(s) == ((d0 * 10 + d1) * 10 + d2) * 10 + d3;
  }

  /** Comparing valid labels as integers, as the listing filter does,
      orders them as times of day. */
  lemma LabelOrder(a: string, b: string)
    requires ValidLabel(a) && ValidLabel(b)
    ensures IntOrZero(a) < IntOrZero(b) <==> Decode(a) < Decode(b)
  {
    LabelNumber(a);
    LabelNumber(b);
    if Hour(a) < Hour(b) {
      assert Hour(a) * 100 + 100 <= Hour(b) * 100;
      assert Hour(a) * 60 + 60 <= Hour(b) * 60;
    } else if Hour(b) < Hour(a) {
      assert Hour(b) * 100 + 100 <= Hour(a) * 100;
      assert Hour(b) * 60 + 60 <= Hour(a) * 60;
    }
  }
}
