/** `fmt_dur` (app.py:46-53): a number of seconds shown as HH:MM:SS, with
    zero-padded two-digit fields; hours grow past two digits as needed. A
    missing (NULL), zero or negative duration shows as 00:00:00. */
module Format {
  import opened Schema

  function DigitChar(d: nat): (c: char)
    requires d < 10
    ensures '0' <= c <= '9'
  {
    ('0' as int + d) as char
  }

  function DigitValue(c: char): (d: nat)
    requires '0' <= c <= '9'
    ensures d < 10
  {
    (c as int - '0' as int) as nat
  }

  predicate AllDigits(s: string)
  {
    forall i :: 0 <= i < |s| ==> '0' <= s[i] <= '9'
  }

  /** The decimal numeral of `n`, without leading zeros. */
  function Digits(n: nat): (s: string)
    ensures |s| >= 1 && AllDigits(s)
    ensures n < 10 <==> |s| == 1
  {
    if n < 10 then [DigitChar(n)] else Digits(n / 10) + [DigitChar(n % 10)]
  }

  /** The number a string of digits denotes. */
  function ParseDigits(s: string): nat
    requires AllDigits(s)
  {
    if s == [] then 0 else ParseDigits(s[..|s| - 1]) * 10 + DigitValue(s[|s| - 1])
  }

  lemma {:induction false} DigitsRoundTrip(n: nat)
    ensures ParseDigits(Digits(n)) == n
  {
    var s := Digits(n);
    if n >= 10 {
      DigitsRoundTrip(n / 10);
      assert s[..|s| - 1] == Digits(n / 10);
    } else {
      assert s[..|s| - 1] == [];
    }
  }

  /** The `:02d` format: at least two digits, zero-padded on the left. */
  function Pad2(n: nat): (s: string)
    ensures |s| >= 2 && AllDigits(s)
    ensures n < 100 <==> |s| == 2
  {
    if n < 10 then ['0', DigitChar(n)] else Digits(n)
  }

  lemma Pad2RoundTrip(n: nat)
    ensures ParseDigits(Pad2(n)) == n
  {
    if n < 10 {
      var s := Pad2(n);
      assert s[..1] == ['0'] && ['0'][..0] == [];
    } else {
      DigitsRoundTrip(n);
    }
  }

  /** Three fields joined with colons, each `:02d`-formatted. */
  function Clock(h: nat, m: nat, s: nat): string
  {
    Pad2(h) + ":" + Pad2(m) + ":" + Pad2(s)
  }

  /** The width is eight characters exactly when the hours fit in two
      digits, i.e. under 100 hours. */
  function FmtDur(seconds: Option<int>): (r: string)
    ensures |r| >= 8
    ensures |r| == 8 <==> seconds.None? || seconds.value < 360000
  {
    if seconds.None? || seconds.value <= 0 then "00:00:00"
    else
      var n := seconds.value;
      Clock(n / 3600, n % 3600 / 60, n % 60)
  }

  /** The layout of a formatted duration: digits, with colons exactly three
      and six places from the end. */
  predicate DurShape(r: string)
  {
    && |r| >= 8 && r[|r| - 3] == ':' && r[|r| - 6] == ':'
    && AllDigits(r[..|r| - 6]) && AllDigits(r[|r| - 5..|r| - 3]) && AllDigits(r[|r| - 2..])
  }

  /** Reads an HH:MM:SS string back as seconds; the partner of FmtDur. */
  function ParseDur(r: string): (n: int)
    requires DurShape(r)
  {
    ParseDigits(r[..|r| - 6]) * 3600 + ParseDigits(r[|r| - 5..|r| - 3]) * 60 + ParseDigits(r[|r| - 2..])
  }

  function Minutes(r: string): nat
    requires DurShape(r)
  {
    ParseDigits(r[|r| - 5..|r| - 3])
  }

  function SecondsField(r: string): nat
    requires DurShape(r)
  {
    ParseDigits(r[|r| - 2..])
  }

  /** Two-digit minute and second fields are read back where they were put. */
  lemma ClockFields(h: nat, m: nat, s: nat)
    requires m < 100 && s < 100
    ensures var r := Clock(h, m, s);
      DurShape(r) && ParseDigits(r[..|r| - 6]) == h && Minutes(r) == m && SecondsField(r) == s
  {
    var r := Clock(h, m, s);
    var ph, pm, ps := Pad2(h), Pad2(m), Pad2(s);
    assert r == ph + [':'] + pm + [':'] + ps;
    assert r[..|r| - 6] == ph;
    assert r[|r| - 5..|r| - 3] == pm;
    assert r[|r| - 2..] == ps;
    Pad2RoundTrip(h);
    Pad2RoundTrip(m);
    Pad2RoundTrip(s);
  }

  lemma SplitSeconds(n: nat)
    ensures n / 3600 * 3600 + n % 3600 / 60 * 60 + n % 60 == n
    ensures n % 3600 / 60 < 60 && n % 60 < 60
  {
  }

  /** The minutes and seconds fields of a formatted duration are below 60. */
  lemma FmtDurFields(seconds: Option<int>)
    ensures var r := FmtDur(seconds);
      DurShape(r) && Minutes(r) < 60 && SecondsField(r) < 60
  {
    if seconds.None? || seconds.value <= 0 {
      assert FmtDur(seconds) == Clock(0, 0, 0);
      ClockFields(0, 0, 0);
    } else {
      var n: nat := seconds.value;
      SplitSeconds(n);
      ClockFields(n / 3600, n % 3600 / 60, n % 60);
    }
  }

  lemma ClockValue(h: nat, m: nat, s: nat)
    requires m < 100 && s < 100
    ensures DurShape(Clock(h, m, s)) && ParseDur(Clock(h, m, s)) == h * 3600 + m * 60 + s
  {
    ClockFields(h, m, s);
  }

  /** Formatting then reading back gives the duration, with the missing and
      negative ones read as zero. */
  lemma FmtDurRoundTrip(seconds: Option<int>)
    ensures DurShape(FmtDur(seconds))
    ensures ParseDur(FmtDur(seconds)) == if seconds.Some? && seconds.value > 0 then seconds.value else 0
  {
    if seconds.None? || seconds.value <= 0 {
      assert FmtDur(seconds) == Clock(0, 0, 0);
      ClockValue(0, 0, 0);
    } else {
      var n: nat := seconds.value;
      SplitSeconds(n);
      var h, m, s := n / 3600, n % 3600 / 60, n % 60;
      assert FmtDur(seconds) == Clock(h, m, s);
      ClockValue(h, m, s);
    }
  }

  /** The all-zero display is shown exactly for a missing, zero or negative
      duration. */
  lemma FmtDurZero(seconds: Option<int>)
    ensures FmtDur(seconds) == "00:00:00" <==> seconds.None? || seconds.value <= 0
  {
    FmtDurRoundTrip(seconds);
    assert "00:00:00" == Clock(0, 0, 0);
    ClockValue(0, 0, 0);
  }
}
