/** The string primitives the bot relies on: `str.isdigit`, `int`, `str.lower`
    and `str.split` with a one-character separator, restricted to ASCII text. */
module Text {

  predicate IsDigit(c: char) {
    '0' <= c <= '9'
  }

  /** `str.isdigit()`: true for a non-empty string made only of digits. */
  predicate IsDigitString(s: string) {
    |s| > 0 && forall i :: 0 <= i < |s| ==> IsDigit(s[i])
  }

  function DigitValue(c: char): (d: nat)
    requires IsDigit(c)
    ensures d < 10
  {
    c as int - '0' as int
  }

  function DigitChar(d: nat): (c: char)
    requires d < 10
    ensures IsDigit(c) && DigitValue(c) == d
  {
    ('0' as int + d) as char
  }

  function Pow10(k: nat): (p: nat)
    ensures p >= 1
  {
    if k == 0 then 1 else 10 * Pow10(k - 1)
  }

  /** The number a run of digits denotes, most significant digit first. */
  function DigitsValue(s: string): (n: nat)
    requires forall i :: 0 <= i < |s| ==> IsDigit(s[i])
    ensures n < Pow10(|s|)
    decreases |s|
  {
    if |s| == 0 then 0 else DigitsValue(s[..|s| - 1]) * 10 + DigitValue(s[|s| - 1])
  }

  /** The shortest decimal spelling of a natural number: a reference
      rendering used to state what `IntOrZero` reads back. */
  function DecimalString(n: nat): (s: string)
    ensures IsDigitString(s) && DigitsValue(s) == n
    decreases n
  {
    if n < 10 then [DigitChar(n)]
    else
      var prefix := DecimalString(n / 10);
      var s := prefix + [DigitChar(n % 10)];
      assert s[..|s| - 1] == prefix;
      s
  }

  /** `int_or_zero`: what Python's `int(s)` returns for an optional sign
      followed by decimal digits, and 0 where `int` raises ValueError. */
  function IntOrZero(s: string): (v: int)
    ensures IsDigitString(s) ==> 0 <= v < Pow10(|s|)
    ensures v < 0 ==> |s| >= 2 && s[0] == '-'
  {
    if IsDigitString(s) then DigitsValue(s)
    else if |s| >= 2 && s[0] == '+' && IsDigitString(s[1..]) then DigitsValue(s[1..])
    else if |s| >= 2 && s[0] == '-' && IsDigitString(s[1..]) then -(DigitsValue(s[1..]) as int)
    else 0
  }

  /** `k` zero digits. */
  function Zeros(k: nat): (z: string)
    ensures |z| == k && forall i :: 0 <= i < k ==> z[i] == '0'
  {
    if k == 0 then [] else Zeros(k - 1) + ['0']
  }

  /** Leading zeros do not change the number a run of digits denotes. */
  lemma {:induction false} DigitsValueLeadingZeros(k: nat, t: string)
    requires forall i :: 0 <= i < |t| ==> IsDigit(t[i])
    ensures forall i :: 0 <= i < |Zeros(k) + t| ==> IsDigit((Zeros(k) + t)[i])
    ensures DigitsValue(Zeros(k) + t) == DigitsValue(t)
    decreases k + |t|
  {
    var s := Zeros(k) + t;
    if |t| == 0 {
      assert s == Zeros(k);
      if k > 0 {
        assert s[..|s| - 1] == Zeros(k - 1) + [];
        DigitsValueLeadingZeros(k - 1, []);
      }
    } else {
      var init := t[..|t| - 1];
      assert s[..|s| - 1] == Zeros(k) + init;
      DigitsValueLeadingZeros(k, init);
    }
  }

  /** Digits, alone or after a sign, read as the digits' number, signed. */
  lemma IntOrZeroOfDigits(d: string)
    requires IsDigitString(d)
    ensures IntOrZero(d) == DigitsValue(d)
    ensures IntOrZero("+" + d) == DigitsValue(d)
    ensures IntOrZero("-" + d) == -(DigitsValue(d) as int)
  {
    assert ("+" + d)[1..] == d && ("-" + d)[1..] == d;
    assert !IsDigit(("+" + d)[0]) && !IsDigit(("-" + d)[0]);
  }

  /** A decimal numeral, with any number of leading zeros, reads back as its
      number, with either sign. */
  lemma IntOrZeroReadsDecimal(n: nat, k: nat)
    ensures IntOrZero(Zeros(k) + DecimalString(n)) == n
    ensures IntOrZero("+" + Zeros(k) + DecimalString(n)) == n
    ensures IntOrZero("-" + Zeros(k) + DecimalString(n)) == -(n as int)
  {
    var z, t := Zeros(k), DecimalString(n);
    DigitsValueLeadingZeros(k, t);
    assert IsDigitString(z + t);
    IntOrZeroOfDigits(z + t);
    assert "+" + z + t == "+" + (z + t) && "-" + z + t == "-" + (z + t);
  }

  /** Text that is not an optional sign followed by one or more digits reads
      as 0: the empty text, a lone sign, or text with a character that is
      neither a digit nor a leading sign. */
  lemma IntOrZeroOfNonNumber(s: string)
    requires s == [] || (|s| == 1 && s[0] in "+-") ||
      exists i :: 0 <= i < |s| && !IsDigit(s[i]) && !(i == 0 && s[0] in "+-")
    ensures IntOrZero(s) == 0
  {
    if |s| >= 2 && s[0] in "+-" {
      var i :| 0 <= i < |s| && !IsDigit(s[i]) && !(i == 0 && s[0] in "+-");
      assert !IsDigit(s[1..][i - 1]);
    }
  }

  function LowerChar(c: char): char {
    if 'A' <= c <= 'Z' then (c as int - 'A' as int + 'a' as int) as char else c
  }

  /** `str.lower()` on ASCII letters; every other character is kept. */
  function Lower(s: string): (r: string)
    ensures |r| == |s| && forall i :: 0 <= i < |r| ==> !('A' <= r[i] <= 'Z')
  {
    seq(|s|, i requires 0 <= i < |s| => LowerChar(s[i]))
  }

  /** The acknowledgement test `message.lower() == "y"` accepts exactly
      "y" and "Y". */
  lemma LowerIsY(s: string)
    ensures Lower(s) == "y" <==> s == "y" || s == "Y"
  {
    if Lower(s) == "y" {
      assert Lower(s)[0] == LowerChar(s[0]) == 'y';
      assert s == [s[0]];
    }
  }

  /** The listing test `message.lower() == "list"` accepts "list" in any
      mixture of upper and lower case, and nothing else. */
  lemma LowerIsList(s: string)
    ensures Lower(s) == "list" <==>
      |s| == 4 && s[0] in "lL" && s[1] in "iI" && s[2] in "sS" && s[3] in "tT"
  {
    if Lower(s) == "list" {
      assert |s| == 4;
      assert Lower(s)[0] == LowerChar(s[0]) == 'l';
      assert Lower(s)[1] == LowerChar(s[1]) == 'i';
      assert Lower(s)[2] == LowerChar(s[2]) == 's';
      assert Lower(s)[3] == LowerChar(s[3]) == 't';
    }
    if |s| == 4 && s[0] in "lL" && s[1] in "iI" && s[2] in "sS" && s[3] in "tT" {
      assert Lower(s)[0] == 'l' && Lower(s)[1] == 'i' && Lower(s)[2] == 's' && Lower(s)[3] == 't';
    }
  }

  /** `s.split(d)`: the pieces of `s` between occurrences of `d`. */
  function Split(s: string, d: char): (parts: seq<string>)
    ensures |parts| >= 1
    decreases |s|
  {
    if |s| == 0 then [""]
    else if s[0] == d then [""] + Split(s[1..], d)
    else
      var rest := Split(s[1..], d);
      [[s[0]] + rest[0]] + rest[1..]
  }

  /** `d.join(parts)`, the inverse of `Split`. */
  function Join(parts: seq<string>, d: char): string
    requires |parts| >= 1
    decreases |parts|
  {
    if |parts| == 1 then parts[0] else parts[0] + [d] + Join(parts[1..], d)
  }

  /** The number of occurrences of `d` in `s`. */
  function Occurrences(s: string, d: char): nat
    decreases |s|
  {
    if |s| == 0 then 0 else (if s[0] == d then 1 else 0) + Occurrences(s[1..], d)
  }

  /** Splitting yields one more piece than there are separators. */
  lemma {:induction false} SplitCount(s: string, d: char)
    ensures |Split(s, d)| == Occurrences(s, d) + 1
    decreases |s|
  {
    if |s| > 0 {
      SplitCount(s[1..], d);
    }
  }

  /** No piece of a split contains the separator. */
  lemma {:induction false} SplitPiecesFree(s: string, d: char)
    ensures forall k :: 0 <= k < |Split(s, d)| ==> d !in Split(s, d)[k]
    decreases |s|
  {
    if |s| > 0 {
      SplitPiecesFree(s[1..], d);
      var rest := Split(s[1..], d);
      if s[0] != d {
        assert d !in rest[0];
        assert d !in [s[0]] + rest[0];
      }
    }
  }

  /** Joining the pieces of a split gives back the original text. */
  lemma {:induction false} JoinSplit(s: string, d: char)
    ensures Join(Split(s, d), d) == s
    decreases |s|
  {
    if |s| > 0 {
      JoinSplit(s[1..], d);
      var rest := Split(s[1..], d);
      if s[0] == d {
        assert Split(s, d)[1..] == rest;
      } else {
        var parts := Split(s, d);
        assert parts[1..] == rest[1..];
        if |rest| > 1 {
          assert Join(rest, d) == rest[0] + [d] + Join(rest[1..], d);
        }
      }
    }
  }

  /** A piece free of the separator splits into itself. */
  lemma {:induction false} SplitPlain(p: string, d: char)
    requires d !in p
    ensures Split(p, d) == [p]
    decreases |p|
  {
    if |p| > 0 {
      assert d !in p[1..];
      SplitPlain(p[1..], d);
      assert [p[0]] + p[1..] == p;
    }
  }

  /** A separator-free prefix followed by the separator splits off as one piece. */
  lemma {:induction false} SplitAtSeparator(p: string, d: char, rest: string)
    requires d !in p
    ensures Split(p + [d] + rest, d) == [p] + Split(rest, d)
    decreases |p|
  {
    if |p| == 0 {
      assert p + [d] + rest == [d] + rest;
      assert ([d] + rest)[1..] == rest;
    } else {
      assert d !in p[1..];
      SplitAtSeparator(p[1..], d, rest);
      assert (p + [d] + rest)[1..] == p[1..] + [d] + rest;
      assert [p[0]] + p[1..] == p;
    }
  }

  /** Splitting a join of separator-free pieces gives back the pieces. */
  lemma {:induction false} SplitJoin(parts: seq<string>, d: char)
    requires |parts| >= 1
    requires forall k :: 0 <= k < |parts| ==> d !in parts[k]
    ensures Split(Join(parts, d), d) == parts
    decreases |parts|
  {
    if |parts| == 1 {
      SplitPlain(parts[0], d);
    } else {
      SplitJoin(parts[1..], d);
      SplitAtSeparator(parts[0], d, Join(parts[1..], d));
      assert [parts[0]] + parts[1..] == parts;
    }
  }
}
