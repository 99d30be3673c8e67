/** Wall-clock times of day. The bot keeps them as zero-padded `"HH:MM"` strings
    (`strftime('%H:%M')` for the current time, `f"{hour:02d}:00"` for the stored
    bounds of a quiet window) and compares them with Python's string `<=`. The
    model uses minutes since midnight instead; `FormatOrder` shows that the two
    comparisons agree, so nothing is lost. */
module Clock {
  import opened Text

  const MinutesPerDay: int := 1440

  /** A time of day, in minutes since midnight. */
  type Minute = m: int | 0 <= m < MinutesPerDay

  function DigitChar(d: int): char
    requires 0 <= d <= 9
  {
    ('0' as int + d) as char
  }

  /** `strftime('%H:%M')`: two-digit hour, a colon, two-digit minute. */
  function Format(m: Minute): (s: string)
    ensures |s| == 5 && s[2] == ':'
  {
    var h := m / 60;
    var mm := m % 60;
    [DigitChar(h / 10), DigitChar(h % 10), ':', DigitChar(mm / 10), DigitChar(mm % 10)]
  }

  /** One step of the lexicographic comparison. */
  lemma LexStep(x: string, y: string)
    requires x != [] && y != []
    ensures LexLe(x, y) <==> x[0] < y[0] || (x[0] == y[0] && LexLe(x[1..], y[1..]))
  {
  }

  /** The four digits of `Format(m)`, most significant first. */
  function Digits(m: Minute): (int, int, int, int) {
    ((m / 60) / 10, (m / 60) % 10, (m % 60) / 10, (m % 60) % 10)
  }

  /** Digit-wise lexicographic order of two digit tuples. */
  predicate DigitsLe(p: (int, int, int, int), q: (int, int, int, int)) {
    p.0 < q.0 || (p.0 == q.0 && (p.1 < q.1 || (p.1 == q.1 && (p.2 < q.2 || (p.2 == q.2 && p.3 <= q.3)))))
  }

  /** Comparing two formatted times as strings is comparing them as numbers. */
  lemma FormatOrder(a: Minute, b: Minute)
    ensures LexLe(Format(a), Format(b)) <==> a <= b
  {
    FormatLex(a, b);
    DigitsOrder(a, b);
  }

  /** The string comparison decides digit by digit, skipping the colon. */
  lemma FormatLex(a: Minute, b: Minute)
    ensures LexLe(Format(a), Format(b)) <==> DigitsLe(Digits(a), Digits(b))
  {
    var x, y := Format(a), Format(b);
    LexStep(x, y);
    LexStep(x[1..], y[1..]);
    LexStep(x[2..], y[2..]);
    LexStep(x[3..], y[3..]);
    LexStep(x[4..], y[4..]);
    assert x[1..][1..] == x[2..] && y[1..][1..] == y[2..];
    assert x[2..][1..] == x[3..] && y[2..][1..] == y[3..];
    assert x[3..][1..] == x[4..] && y[3..][1..] == y[4..];
    assert x[4..][1..] == [] && y[4..][1..] == [];
  }

  /** Digit-wise order of the positional digits is numeric order. */
  lemma DigitsOrder(a: Minute, b: Minute)
    ensures DigitsLe(Digits(a), Digits(b)) <==> a <= b
  {
    var (a0, a1, a3, a4) := Digits(a);
    var (b0, b1, b3, b4) := Digits(b);
    assert a == 600 * a0 + 60 * a1 + 10 * a3 + a4 && 0 <= a1 <= 9 && 0 <= a3 <= 5 && 0 <= a4 <= 9;
    assert b == 600 * b0 + 60 * b1 + 10 * b3 + b4 && 0 <= b1 <= 9 && 0 <= b3 <= 5 && 0 <= b4 <= 9;
  }

  /** Distinct times have distinct text. */
  lemma FormatInjective(a: Minute, b: Minute)
    requires Format(a) == Format(b)
    ensures a == b
  {
    FormatOrder(a, b);
    FormatOrder(b, a);
    LexReflexive(Format(a));
  }

  lemma {:induction false} LexReflexive(s: string)
    ensures LexLe(s, s)
    decreases |s|
  {
    if s != [] {
      LexReflexive(s[1..]);
    }
  }
}
