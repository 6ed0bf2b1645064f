/** Unix seconds printed as RFC 3339 UTC timestamps (src/rpc/mev.rs). */
module Rfc3339 {
  import opened Calendar

  // ----- printing -----

  function DigitChar(d: int): char
    requires 0 <= d < 10
  {
    (48 + d) as char
  }

  function Digits(n: nat): string {
    if n < 10 then [DigitChar(n)] else Digits(n / 10) + [DigitChar(n % 10)]
  }

  function Zeros(k: nat): string {
    seq(k, _ => '0')
  }

  /** At least `width` characters, filled up with zeros on the left. */
  function Pad(n: nat, width: nat): string {
    var d := Digits(n);
    if |d| >= width then d else Zeros(width - |d|) + d
  }

  function DateOf(secs: nat): Date {
    CivilFromDays(secs / 86_400)
  }

  /** Years before 0 do not occur for unsigned seconds. */
  function Format(secs: nat): string {
    var d := DateOf(secs);
    var t := secs % 86_400;
    DateIsPositive(secs);
    Pad(d.year, 4) + "-" + Pad(d.month, 2) + "-" + Pad(d.day, 2) + "T"
    + Pad(t / 3600, 2) + ":" + Pad((t % 3600) / 60, 2) + ":" + Pad(t % 60, 2) + "Z"
  }

  lemma DateIsPositive(secs: nat)
    ensures DateOf(secs).year >= 1970 && 1 <= DateOf(secs).month <= 12 && 1 <= DateOf(secs).day <= 31
  {
    hide CivilFromDays;
    CivilSuccessor(secs / 86_400);
    CivilOrder(0, secs / 86_400);
    EpochDate();
  }

  lemma EpochDate()
    ensures CivilFromDays(0) == Date(1970, 1, 1)
  {
  }

  // ----- fixed-width fields -----

  function Pow10(w: nat): (p: nat)
    ensures p > 0
  {
    if w == 0 then 1 else 10 * Pow10(w - 1)
  }

  function FixedWidth(n: nat, w: nat): (s: string)
    ensures |s| == w
  {
    if w == 0 then [] else FixedWidth(n / 10, w - 1) + [DigitChar(n % 10)]
  }

  lemma {:induction false} ZerosAreFixed(w: nat)
    ensures FixedWidth(0, w) == Zeros(w)
  {
    if w > 0 {
      ZerosAreFixed(w - 1);
    }
  }

  lemma {:induction false} PadIsFixed(n: nat, w: nat)
    requires w > 0 && n < Pow10(w)
    ensures Pad(n, w) == FixedWidth(n, w)
  {
    if w == 1 {
      assert Pow10(0) == 1 && FixedWidth(n / 10, 0) == [];
    } else if n < 10 {
      ZerosAreFixed(w - 1);
    } else {
      PadIsFixed(n / 10, w - 1);
      assert Zeros(w - |Digits(n)|) + (Digits(n / 10) + [DigitChar(n % 10)]) ==
             (Zeros(w - |Digits(n)|) + Digits(n / 10)) + [DigitChar(n % 10)];
    }
  }

  // ----- string order -----

  predicate LexLess(a: string, b: string) {
    |b| > 0 && (|a| == 0 || a[0] < b[0] || (a[0] == b[0] && LexLess(a[1..], b[1..])))
  }

  lemma {:induction false} LexConcat(a: string, b: string, c: string, d: string)
    requires |a| == |b|
    ensures LexLess(a + c, b + d) <==> LexLess(a, b) || (a == b && LexLess(c, d))
  {
    if |a| == 0 {
      assert a + c == c && b + d == d;
    } else {
      LexConcat(a[1..], b[1..], c, d);
      assert (a + c)[1..] == a[1..] + c && (b + d)[1..] == b[1..] + d;
      assert a == b <==> a[0] == b[0] && a[1..] == b[1..] by {
        assert a == [a[0]] + a[1..] && b == [b[0]] + b[1..];
      }
    }
  }

  lemma {:induction false} FixedOrder(n: nat, m: nat, w: nat)
    requires n < Pow10(w) && m < Pow10(w)
    ensures LexLess(FixedWidth(n, w), FixedWidth(m, w)) <==> n < m
    ensures FixedWidth(n, w) == FixedWidth(m, w) <==> n == m
  {
    if w > 0 {
      FixedOrder(n / 10, m / 10, w - 1);
      var a, b := FixedWidth(n / 10, w - 1), FixedWidth(m / 10, w - 1);
      var c, d := [DigitChar(n % 10)], [DigitChar(m % 10)];
      LexConcat(a, b, c, d);
      assert LexLess(c, d) <==> n % 10 < m % 10;
      assert c == d <==> n % 10 == m % 10 by { assert c[0] == DigitChar(n % 10) && d[0] == DigitChar(m % 10); }
      assert (a + c)[..w - 1] == a && (b + d)[..w - 1] == b && (a + c)[w - 1] == c[0] && (b + d)[w - 1] == d[0];
    }
  }

  // ----- rows of fields -----

  datatype Field = Field(value: nat, width: nat, separator: char)

  function Render(fs: seq<Field>): string {
    if |fs| == 0 then [] else FixedWidth(fs[0].value, fs[0].width) + [fs[0].separator] + Render(fs[1..])
  }

  ghost predicate SameLayout(fs: seq<Field>, gs: seq<Field>) {
    && |fs| == |gs|
    && forall i :: 0 <= i < |fs| ==>
                     && fs[i].width == gs[i].width && fs[i].separator == gs[i].separator
                     && fs[i].value < Pow10(fs[i].width) && gs[i].value < Pow10(gs[i].width)
  }

  predicate RowLess(fs: seq<Field>, gs: seq<Field>)
    requires |fs| == |gs|
  {
    |fs| > 0 && (fs[0].value < gs[0].value || (fs[0].value == gs[0].value && RowLess(fs[1..], gs[1..])))
  }

  lemma {:induction false} RenderOrder(fs: seq<Field>, gs: seq<Field>)
    requires SameLayout(fs, gs)
    ensures LexLess(Render(fs), Render(gs)) <==> RowLess(fs, gs)
  {
    if |fs| > 0 {
      RenderOrder(fs[1..], gs[1..]);
      var a, b := FixedWidth(fs[0].value, fs[0].width), FixedWidth(gs[0].value, gs[0].width);
      var sep := [fs[0].separator];
      FixedOrder(fs[0].value, gs[0].value, fs[0].width);
      LexConcat(a, b, sep + Render(fs[1..]), sep + Render(gs[1..]));
      LexConcat(sep, sep, Render(fs[1..]), Render(gs[1..]));
      assert Render(fs) == a + (sep + Render(fs[1..])) && Render(gs) == b + (sep + Render(gs[1..]));
    }
  }

  // ----- the timestamps -----

  /** How many characters the year takes. */
  function YearWidth(secs: nat): nat {
    DateIsPositive(secs);
    |Pad(DateOf(secs).year, 4)|
  }

  lemma YearFits(year: nat)
    ensures var w := |Pad(year, 4)|;
            w >= 4 && year < Pow10(w) && Pad(year, 4) == FixedWidth(year, w) && (w == 4 <==> year <= 9999)
  {
    hide Digits, FixedWidth, Pow10;
    var w := |Pad(year, 4)|;
    DigitCount(year, w);
    DigitCount(year, 4);
    PadIsFixed(year, w);
  }

  function Row(secs: nat): seq<Field> {
    DateIsPositive(secs);
    var d, t := DateOf(secs), secs % 86_400;
    [Field(d.year, YearWidth(secs), '-'), Field(d.month, 2, '-'), Field(d.day, 2, 'T'),
     Field(t / 3600, 2, ':'), Field((t % 3600) / 60, 2, ':'), Field(t % 60, 2, 'Z')]
  }

  predicate FourDigitYear(secs: nat) {
    DateOf(secs).year <= 9999
  }

  lemma RowFits(secs: nat)
    ensures forall i :: 0 <= i < 6 ==> Row(secs)[i].value < Pow10(Row(secs)[i].width) && Row(secs)[i].width > 0
    ensures YearWidth(secs) == 4 <==> FourDigitYear(secs)
  {
    hide DateOf, Pad;
    DateIsPositive(secs);
    YearFits(DateOf(secs).year);
    assert Pow10(2) == 100;
  }

  lemma RenderSix(fs: seq<Field>)
    requires |fs| == 6
    ensures Render(fs) ==
            FixedWidth(fs[0].value, fs[0].width) + [fs[0].separator]
            + FixedWidth(fs[1].value, fs[1].width) + [fs[1].separator]
            + FixedWidth(fs[2].value, fs[2].width) + [fs[2].separator]
            + FixedWidth(fs[3].value, fs[3].width) + [fs[3].separator]
            + FixedWidth(fs[4].value, fs[4].width) + [fs[4].separator]
            + FixedWidth(fs[5].value, fs[5].width) + [fs[5].separator]
  {
    hide FixedWidth, Render;
    assert fs[0..] == fs;
    var p1 := FixedWidth(fs[0].value, fs[0].width) + [fs[0].separator];
    var p2 := p1 + FixedWidth(fs[1].value, fs[1].width) + [fs[1].separator];
    var p3 := p2 + FixedWidth(fs[2].value, fs[2].width) + [fs[2].separator];
    var p4 := p3 + FixedWidth(fs[3].value, fs[3].width) + [fs[3].separator];
    var p5 := p4 + FixedWidth(fs[4].value, fs[4].width) + [fs[4].separator];
    RenderNext([], fs, 0);
    RenderNext(p1, fs, 1);
    RenderNext(p2, fs, 2);
    RenderNext(p3, fs, 3);
    RenderNext(p4, fs, 4);
    RenderNext(p5, fs, 5);
  }

  lemma RenderNext(before: string, fs: seq<Field>, i: nat)
    requires i < |fs|
    ensures var f := FixedWidth(fs[i].value, fs[i].width) + [fs[i].separator];
            i == 0 ==> Render(fs[0..]) == f + Render(fs[1..])
    ensures var p := before + FixedWidth(fs[i].value, fs[i].width) + [fs[i].separator];
            before + Render(fs[i..]) == if i + 1 == |fs| then p else p + Render(fs[i + 1..])
  {
    assert fs[i..][1..] == fs[i + 1..];
  }

  lemma FormatIsRow(secs: nat)
    ensures Format(secs) == Render(Row(secs))
  {
    hide DateOf, Pad, FixedWidth, Render, Pow10;
    RowFits(secs);
    RenderSix(Row(secs));
    var row := Row(secs);
    YearFits(row[0].value);
    assert forall i :: 0 < i < 6 ==> Pad(row[i].value, 2) == FixedWidth(row[i].value, 2) by {
      forall i | 0 < i < 6 ensures Pad(row[i].value, 2) == FixedWidth(row[i].value, 2) {
        PadIsFixed(row[i].value, 2);
      }
    }
    assert Format(secs) ==
           Pad(row[0].value, 4) + "-" + Pad(row[1].value, 2) + "-" + Pad(row[2].value, 2) + "T"
           + Pad(row[3].value, 2) + ":" + Pad(row[4].value, 2) + ":" + Pad(row[5].value, 2) + "Z";
  }

  /** Rows compare like the instants they show. */
  lemma RowOrder(a: nat, b: nat)
    ensures RowLess(Row(a), Row(b)) <==> a < b
  {
    hide CivilFromDays;
    CivilOrder(a / 86_400, b / 86_400);
    var r, q := Row(a), Row(b);
    var s, t := a % 86_400, b % 86_400;
    RowLessSix(r, q);
    assert (s / 3600 < t / 3600
            || (s / 3600 == t / 3600
                && ((s % 3600) / 60 < (t % 3600) / 60
                    || ((s % 3600) / 60 == (t % 3600) / 60 && s % 60 < t % 60)))) <==> s < t by {
      TimeOfDayOrder(s, t);
    }
    assert a < b <==> a / 86_400 < b / 86_400 || (a / 86_400 == b / 86_400 && s < t);
  }

  lemma TimeOfDayOrder(s: nat, t: nat)
    ensures (s / 3600 < t / 3600
             || (s / 3600 == t / 3600
                 && ((s % 3600) / 60 < (t % 3600) / 60
                     || ((s % 3600) / 60 == (t % 3600) / 60 && s % 60 < t % 60)))) <==> s < t
  {
    ClockParts(s);
    ClockParts(t);
  }

  lemma ClockParts(s: nat)
    ensures s == 3600 * (s / 3600) + 60 * ((s % 3600) / 60) + s % 60
    ensures 0 <= (s % 3600) / 60 < 60
  {
    var h, t := s / 3600, s % 3600;
    assert s == 3600 * h + t;
    Sixtieths(60 * h + t / 60, t % 60);
    assert s == 60 * (60 * h + t / 60) + t % 60;
  }

  lemma Sixtieths(q: nat, r: nat)
    requires r < 60
    ensures (60 * q + r) % 60 == r
  {
  }

  predicate LessFrom(r: seq<Field>, q: seq<Field>, i: nat)
    requires |r| == |q| == 6 && i <= 6
    decreases 6 - i
  {
    i < 6 && (r[i].value < q[i].value || (r[i].value == q[i].value && LessFrom(r, q, i + 1)))
  }

  lemma {:induction false} RowLessFrom(r: seq<Field>, q: seq<Field>, i: nat)
    requires |r| == |q| == 6 && i <= 6
    ensures RowLess(r[i..], q[i..]) <==> LessFrom(r, q, i)
    decreases 6 - i
  {
    if i < 6 {
      RowLessFrom(r, q, i + 1);
      assert r[i..][1..] == r[i + 1..] && q[i..][1..] == q[i + 1..];
    }
  }

  lemma RowLessSix(r: seq<Field>, q: seq<Field>)
    requires |r| == |q| == 6
    ensures RowLess(r, q) <==>
            || r[0].value < q[0].value
            || (r[0].value == q[0].value && (r[1].value < q[1].value
            || (r[1].value == q[1].value && (r[2].value < q[2].value
            || (r[2].value == q[2].value && (r[3].value < q[3].value
            || (r[3].value == q[3].value && (r[4].value < q[4].value
            || (r[4].value == q[4].value && r[5].value < q[5].value)))))))))
  {
    hide RowLess;
    RowLessFrom(r, q, 0);
    assert r[0..] == r && q[0..] == q;
    assert !LessFrom(r, q, 6);
    assert LessFrom(r, q, 4) <==> r[4].value < q[4].value || (r[4].value == q[4].value && r[5].value < q[5].value);
    assert LessFrom(r, q, 2) <==>
           r[2].value < q[2].value || (r[2].value == q[2].value &&
           (r[3].value < q[3].value || (r[3].value == q[3].value && LessFrom(r, q, 4))));
  }

  /** Timestamps whose years have equally many digits, as all before the year 10000 do, sort as
      strings exactly as the instants sort. */
  lemma FormatOrder(a: nat, b: nat)
    requires YearWidth(a) == YearWidth(b)
    ensures LexLess(Format(a), Format(b)) <==> a < b
    ensures Format(a) == Format(b) <==> a == b
  {
    hide Format, Row, YearWidth;
    FormatIsRow(a);
    FormatIsRow(b);
    RowLayouts(a, b);
    RenderOrder(Row(a), Row(b));
    RowOrder(a, b);
    if Format(a) == Format(b) {
      RenderOrder(Row(b), Row(a));
      RowOrder(b, a);
      LexIrreflexive(Format(a));
    }
  }

  lemma RowLayouts(a: nat, b: nat)
    requires YearWidth(a) == YearWidth(b)
    ensures SameLayout(Row(a), Row(b)) && SameLayout(Row(b), Row(a))
  {
    hide DateOf, Pow10, YearWidth;
    RowFits(a);
    RowFits(b);
  }

  lemma {:induction false} LexIrreflexive(s: string)
    ensures !LexLess(s, s)
  {
    if |s| > 0 {
      LexIrreflexive(s[1..]);
    }
  }

  /** The output has the 20 characters of RFC 3339 exactly while the year has four digits. */
  lemma FormatLength(secs: nat)
    ensures |Format(secs)| == YearWidth(secs) + 16
    ensures |Format(secs)| == 20 <==> FourDigitYear(secs)
  {
    hide DateOf, Digits, Pow10;
    DateIsPositive(secs);
    var d, t := DateOf(secs), secs % 86_400;
    TwoDigits(d.month);
    TwoDigits(d.day);
    TwoDigits(t / 3600);
    TwoDigits((t % 3600) / 60);
    TwoDigits(t % 60);
    YearFits(d.year);
  }

  /** No two instants print alike, whatever their years. */
  lemma FormatInjective(a: nat, b: nat)
    ensures Format(a) == Format(b) <==> a == b
  {
    hide Format, YearWidth;
    FormatLength(a);
    FormatLength(b);
    if Format(a) == Format(b) {
      FormatOrder(a, b);
    }
  }

  // ----- reading a timestamp -----

  predicate IsDigit(c: char) {
    48 <= c as int < 58
  }

  function Value(s: string): nat
    requires forall i :: 0 <= i < |s| ==> IsDigit(s[i])
  {
    if |s| == 0 then 0
    else
      assert IsDigit(s[|s| - 1]);
      10 * Value(s[..|s| - 1]) + (s[|s| - 1] as int - 48)
  }

  lemma {:induction false} FixedValue(n: nat, w: nat)
    requires n < Pow10(w)
    ensures forall i :: 0 <= i < w ==> IsDigit(FixedWidth(n, w)[i])
    ensures Value(FixedWidth(n, w)) == n
  {
    if w > 0 {
      FixedValue(n / 10, w - 1);
      assert FixedWidth(n, w)[..w - 1] == FixedWidth(n / 10, w - 1);
    }
  }

  /** Digits with '-', '-', 'T', ':', ':' and 'Z' between and after them, two for each field but
      the year. */
  predicate IsTimestamp(s: string) {
    && |s| >= 20
    && (var w := |s| - 16;
        && s[w] == '-' && s[w + 3] == '-' && s[w + 6] == 'T' && s[w + 9] == ':' && s[w + 12] == ':' && s[w + 15] == 'Z'
        && (forall i :: 0 <= i < |s| && i !in {w, w + 3, w + 6, w + 9, w + 12, w + 15} ==> IsDigit(s[i])))
  }

  /** The seconds since 1970 that a timestamp names. */
  function Parse(s: string): int
    requires IsTimestamp(s)
  {
    var w := |s| - 16;
    var date := Date(Value(s[..w]), Value(s[w + 1..w + 3]), Value(s[w + 4..w + 6]));
    86_400 * DayNumber(date) + 3600 * Value(s[w + 7..w + 9]) + 60 * Value(s[w + 10..w + 12]) + Value(s[w + 13..w + 15])
  }

  lemma FieldAt(secs: nat, i: nat)
    requires i < 6
    ensures var f := Row(secs)[i];
            && Pad(f.value, if i == 0 then 4 else 2) == FixedWidth(f.value, f.width)
            && (forall k :: 0 <= k < f.width ==> IsDigit(FixedWidth(f.value, f.width)[k]))
            && Value(FixedWidth(f.value, f.width)) == f.value
  {
    hide FixedWidth, Pad, Pow10, DateOf, Value;
    var f := Row(secs)[i];
    RowFits(secs);
    if i == 0 {
      YearFits(f.value);
    } else {
      PadIsFixed(f.value, f.width);
    }
    FixedValue(f.value, f.width);
  }

  /** The output is the year, month, day, hour, minute and second in their places. */
  lemma FormatFields(secs: nat)
    ensures var s, w, r := Format(secs), YearWidth(secs), Row(secs);
            && |s| == w + 16 && s[..w] == FixedWidth(r[0].value, w)
            && s[w] == '-' && s[w + 1..w + 3] == FixedWidth(r[1].value, 2)
            && s[w + 3] == '-' && s[w + 4..w + 6] == FixedWidth(r[2].value, 2)
            && s[w + 6] == 'T' && s[w + 7..w + 9] == FixedWidth(r[3].value, 2)
            && s[w + 9] == ':' && s[w + 10..w + 12] == FixedWidth(r[4].value, 2)
            && s[w + 12] == ':' && s[w + 13..w + 15] == FixedWidth(r[5].value, 2)
            && s[w + 15] == 'Z'
  {
    hide FixedWidth, Pad, DateOf, Value, IsDigit;
    DateIsPositive(secs);
    FieldAt(secs, 0);
    FieldAt(secs, 1);
    FieldAt(secs, 2);
    FieldAt(secs, 3);
    FieldAt(secs, 4);
    FieldAt(secs, 5);
  }

  /** Reading the output gives back the seconds. */
  lemma ParseInvertsFormat(secs: nat)
    ensures IsTimestamp(Format(secs)) && Parse(Format(secs)) == secs
  {
    hide FixedWidth, Format, DateOf, Value, DayNumber, YearWidth;
    FormatFields(secs);
    FieldAt(secs, 0);
    FieldAt(secs, 1);
    FieldAt(secs, 2);
    FieldAt(secs, 3);
    FieldAt(secs, 4);
    FieldAt(secs, 5);
    RowFits(secs);
    FormatIsTimestamp(secs);
    RowSeconds(secs);
  }

  lemma FormatIsTimestamp(secs: nat)
    ensures IsTimestamp(Format(secs)) && |Format(secs)| == YearWidth(secs) + 16
  {
    hide FixedWidth, Format, DateOf, Value, YearWidth, Row;
    FormatFields(secs);
    YearIsWide(secs);
    var s, w, r := Format(secs), YearWidth(secs), Row(secs);
    forall i | 0 <= i < |s| && i !in {w, w + 3, w + 6, w + 9, w + 12, w + 15} ensures IsDigit(s[i]) {
      DigitAt(secs, i);
    }
  }

  lemma YearIsWide(secs: nat)
    ensures YearWidth(secs) >= 4 && Row(secs)[0].width == YearWidth(secs)
    ensures forall i :: 1 <= i < 6 ==> Row(secs)[i].width == 2
  {
    hide DateOf, Pad;
    DateIsPositive(secs);
    YearFits(DateOf(secs).year);
  }

  lemma DigitAt(secs: nat, i: nat)
    requires var w := YearWidth(secs); i < w + 15 && i !in {w, w + 3, w + 6, w + 9, w + 12}
    ensures |Format(secs)| == YearWidth(secs) + 16 && IsDigit(Format(secs)[i])
  {
    hide FixedWidth, Format, DateOf, Value, YearWidth, Row, IsDigit;
    FormatFields(secs);
    YearIsWide(secs);
    var s, w := Format(secs), YearWidth(secs);
    if i < w {
      FieldAt(secs, 0);
      assert s[i] == s[..w][i];
    } else {
      var k := if i < w + 3 then 1 else if i < w + 6 then 2 else if i < w + 9 then 3 else if i < w + 12 then 4 else 5;
      FieldAt(secs, k);
      PairAt(s, w + 3 * k - 2, i);
    }
  }

  lemma PairAt(s: string, start: nat, i: nat)
    requires start <= i < start + 2 <= |s|
    ensures s[start..start + 2][i - start] == s[i]
  {
  }

  lemma RowSeconds(secs: nat)
    ensures var r := Row(secs);
            86_400 * DayNumber(Date(r[0].value, r[1].value, r[2].value)) +
            3600 * r[3].value + 60 * r[4].value + r[5].value == secs
  {
    hide CivilFromDays, DayNumber, YearWidth;
    DateIsPositive(secs);
    CivilInvertsDayNumber(secs / 86_400);
    ClockParts(secs % 86_400);
    var d := DateOf(secs);
    assert Date(d.year, d.month, d.day) == d;
  }

  // ----- where string order ends -----

  /** The first second of the year 10000. */
  const YEAR_10000: nat := 253_402_300_800

  lemma LastFourDigitDay(last: nat)
    requires last == 2_932_896
    ensures CivilFromDays(last) == Date(9999, 12, 31) && CivilFromDays(last + 1) == Date(10_000, 1, 1)
  {
    hide CivilFromDays, DayNumber;
    CivilSuccessor(last);
    DayNumberInvertsCivil(Date(9999, 12, 31));
    LastDayNumber();
  }

  lemma LastDayNumber()
    ensures DayNumber(Date(9999, 12, 31)) == 2_932_896
  {
    YearLength(9999);
  }

  lemma FourDigitsBefore10000(secs: nat)
    ensures FourDigitYear(secs) <==> secs < YEAR_10000
  {
    hide CivilFromDays;
    LastFourDigitDay(2_932_896);
    CivilSuccessor(secs / 86_400);
    CivilOrder(secs / 86_400, 2_932_897);
  }

  ghost predicate OrderedBelow(limit: nat) {
    forall a: nat, b: nat :: a < limit && b < limit ==> (LexLess(Format(a), Format(b)) <==> a < b)
  }

  lemma FormatStart(secs: nat, year: nat)
    requires DateOf(secs).year == year
    ensures |Format(secs)| > 0 && |Pad(year, 4)| > 0 && Format(secs)[0] == Pad(year, 4)[0]
  {
    hide DateOf, Pad;
    DateIsPositive(secs);
    YearFits(year);
  }

  /** The last second of 9999 prints above the first second of 10000. */
  lemma StringOrderEnds(first: nat)
    requires first == YEAR_10000
    ensures LexLess(Format(first), Format(first - 1))
  {
    hide CivilFromDays, Format, Pad;
    LastFourDigitDay(2_932_896);
    assert first / 86_400 == 2_932_897 && (first - 1) / 86_400 == 2_932_896;
    FormatStart(first, 10_000);
    FormatStart(first - 1, 9999);
    YearDigits();
  }

  lemma YearDigits()
    ensures Pad(10_000, 4)[..1] == "1" && Pad(9999, 4)[..1] == "9"
  {
    assert Digits(1) == "1" && Digits(10)[..1] == "1" && Digits(100)[..1] == "1";
    assert Digits(1000)[..1] == "1" && Digits(10_000)[..1] == "1";
    assert Digits(9) == "9" && Digits(99)[..1] == "9" && Digits(999)[..1] == "9" && Digits(9999)[..1] == "9";
    assert |Digits(99)| == 2 && |Digits(999)| == 3 && |Digits(9999)| == 4;
    assert |Digits(100)| == 3 && |Digits(1000)| == 4 && |Digits(10_000)| == 5;
  }

  /** String order is time order on all instants below a limit exactly up to the year 10000. */
  lemma OrderedExactlyBefore10000(limit: nat)
    ensures OrderedBelow(limit) <==> limit <= YEAR_10000
  {
    hide Format, YearWidth, LexLess, FourDigitYear;
    if limit <= YEAR_10000 {
      forall a: nat, b: nat | a < limit && b < limit ensures LexLess(Format(a), Format(b)) <==> a < b {
        FourDigitsBefore10000(a);
        FourDigitsBefore10000(b);
        RowFits(a);
        RowFits(b);
        FormatOrder(a, b);
      }
    } else {
      StringOrderEnds(YEAR_10000);
    }
  }

  lemma TwoDigits(n: nat)
    requires n < 100
    ensures |Pad(n, 2)| == 2
  {
    hide Pad;
    assert Pow10(2) == 100;
    PadIsFixed(n, 2);
  }

  lemma {:induction false} DigitCount(n: nat, w: nat)
    requires w > 0
    ensures |Digits(n)| <= w <==> n < Pow10(w)
    ensures w == 4 ==> Pow10(w) == 10_000
  {
    if w > 1 && n >= 10 {
      DigitCount(n / 10, w - 1);
    } else if w == 1 {
      assert Pow10(0) == 1;
    } else {
      assert Pow10(w) >= 10 * Pow10(w - 1);
    }
  }
}
