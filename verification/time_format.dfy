/** The two Go time layouts the signer uses, applied to a UTC instant.

    Go's `Time.Format` walks its layout string and recognises reference-time
    elements: "2006" is the four-digit year, "01" the zero-padded month, "02" the
    zero-padded day, "15" the 24-hour hour, "04" the zero-padded minute and "05"
    the zero-padded second; other characters (here 'T' and 'Z', which starts no
    zone element when nothing follows it) are copied. Each numeric element is
    written by `appendInt(value, width)`, so a year outside 0..9999 is not cut to
    four characters. Layouts are given here already split into these elements. */
module TimeFormat {
  import opened ByteStrings
  import opened Wrappers
  import Decimal

  /** A broken-down UTC instant, as `time.Now().UTC()` holds it. */
  datatype DateTime = DateTime(year: int, month: int, day: int, hour: int, minute: int, second: int)

  predicate Valid(t: DateTime) {
    && 1 <= t.month <= 12
    && 1 <= t.day <= 31
    && 0 <= t.hour < 24
    && 0 <= t.minute < 60
    && 0 <= t.second < 60
  }

  /** The years `Format` writes in exactly four digits. */
  predicate FourDigitYear(t: DateTime) {
    0 <= t.year <= 9999
  }

  datatype Element = LongYear | ZeroMonth | ZeroDay | Hour | ZeroMinute | ZeroSecond | Literal(b: byte)

  const T: byte := 84
  const Z: byte := 90

  /** "20060102" */
  const DateLayout: seq<Element> := [LongYear, ZeroMonth, ZeroDay]

  /** "20060102T150405Z" */
  const TimeLayout: seq<Element> := [LongYear, ZeroMonth, ZeroDay, Literal(T), Hour, ZeroMinute, ZeroSecond, Literal(Z)]

  function Render(t: DateTime, e: Element): Bytes
  {
    match e
    case LongYear => Decimal.AppendInt(t.year, 4)
    case ZeroMonth => Decimal.AppendInt(t.month, 2)
    case ZeroDay => Decimal.AppendInt(t.day, 2)
    case Hour => Decimal.AppendInt(t.hour, 2)
    case ZeroMinute => Decimal.AppendInt(t.minute, 2)
    case ZeroSecond => Decimal.AppendInt(t.second, 2)
    case Literal(b) => [b]
  }

  /** `t.Format(layout)`. */
  function Format(t: DateTime, layout: seq<Element>): Bytes
  {
    if |layout| == 0 then [] else Render(t, layout[0]) + Format(t, layout[1..])
  }

  /** Formatting a layout made of two parts writes the parts one after the other. */
  lemma {:induction false} FormatAppend(t: DateTime, a: seq<Element>, b: seq<Element>)
    ensures Format(t, a + b) == Format(t, a) + Format(t, b)
  {
    if |a| > 0 {
      var ab := a + b;
      assert ab[0] == a[0];
      assert ab[1..] == a[1..] + b;
      FormatAppend(t, a[1..], b);
      assert Format(t, ab) == Render(t, a[0]) + Format(t, a[1..] + b);
      assert Format(t, a) == Render(t, a[0]) + Format(t, a[1..]);
    } else {
      assert a + b == b;
    }
  }

  lemma FormatThree(t: DateTime, a: Element, b: Element, c: Element)
    ensures Format(t, [a, b, c]) == Render(t, a) + Render(t, b) + Render(t, c)
  {
    assert [a, b, c][1..] == [b, c];
    assert [b, c][1..] == [c];
    assert [c][1..] == [];
    assert Format(t, [c]) == Render(t, c);
    assert Format(t, [b, c]) == Render(t, b) + Render(t, c);
  }

  /** The `HHMMSS` part of the timestamp. */
  function ClockDigits(t: DateTime): Bytes {
    Format(t, [Hour, ZeroMinute, ZeroSecond])
  }

  /** Whatever the instant, the timestamp is the date, then 'T', the clock and 'Z':
      both strings come from one instant, and the date is a prefix of the
      timestamp. */
  lemma TimestampExtendsDate(t: DateTime)
    ensures Format(t, TimeLayout) == Format(t, DateLayout) + [T] + ClockDigits(t) + [Z]
  {
    assert TimeLayout == DateLayout + [Literal(T)] + [Hour, ZeroMinute, ZeroSecond] + [Literal(Z)];
    FormatAppend(t, DateLayout + [Literal(T)] + [Hour, ZeroMinute, ZeroSecond], [Literal(Z)]);
    FormatAppend(t, DateLayout + [Literal(T)], [Hour, ZeroMinute, ZeroSecond]);
    FormatAppend(t, DateLayout, [Literal(T)]);
  }

  lemma DateShape(t: DateTime)
    requires Valid(t) && FourDigitYear(t)
    ensures var d := Format(t, DateLayout);
      && d == Decimal.AppendInt(t.year, 4) + Decimal.AppendInt(t.month, 2) + Decimal.AppendInt(t.day, 2)
      && |d| == 8 && Decimal.AllDigits(d)
  {
    Decimal.AppendIntWidth(t.year, 4);
    Decimal.AppendIntWidth(t.month, 2);
    Decimal.AppendIntWidth(t.day, 2);
    var d := Format(t, DateLayout);
    FormatThree(t, LongYear, ZeroMonth, ZeroDay);
    assert d == Decimal.AppendInt(t.year, 4) + Decimal.AppendInt(t.month, 2) + Decimal.AppendInt(t.day, 2);
    assert Decimal.AllDigits(d) by {
      forall i | 0 <= i < 8 ensures Decimal.IsDigit(d[i]) {
        if i < 4 { assert d[i] == Decimal.AppendInt(t.year, 4)[i]; }
        else if i < 6 { assert d[i] == Decimal.AppendInt(t.month, 2)[i - 4]; }
        else { assert d[i] == Decimal.AppendInt(t.day, 2)[i - 6]; }
      }
    }
  }

  lemma ClockShape(t: DateTime)
    requires Valid(t)
    ensures var c := ClockDigits(t);
      && c == Decimal.AppendInt(t.hour, 2) + Decimal.AppendInt(t.minute, 2) + Decimal.AppendInt(t.second, 2)
      && |c| == 6 && Decimal.AllDigits(c)
  {
    Decimal.AppendIntWidth(t.hour, 2);
    Decimal.AppendIntWidth(t.minute, 2);
    Decimal.AppendIntWidth(t.second, 2);
    var c := ClockDigits(t);
    FormatThree(t, Hour, ZeroMinute, ZeroSecond);
    assert c == Decimal.AppendInt(t.hour, 2) + Decimal.AppendInt(t.minute, 2) + Decimal.AppendInt(t.second, 2);
    assert Decimal.AllDigits(c) by {
      forall i | 0 <= i < 6 ensures Decimal.IsDigit(c[i]) {
        if i < 2 { assert c[i] == Decimal.AppendInt(t.hour, 2)[i]; }
        else if i < 4 { assert c[i] == Decimal.AppendInt(t.minute, 2)[i - 2]; }
        else { assert c[i] == Decimal.AppendInt(t.second, 2)[i - 4]; }
      }
    }
  }

  /** For a year of four digits the timestamp is 16 bytes: eight date digits, 'T'
      at index 8, six clock digits, 'Z' last; the date is its first eight bytes. */
  lemma TimestampShape(t: DateTime)
    requires Valid(t) && FourDigitYear(t)
    ensures var ts := Format(t, TimeLayout);
      && |ts| == 16
      && ts[..8] == Format(t, DateLayout)
      && |Format(t, DateLayout)| == 8
      && ts[8] == T && ts[15] == Z
      && Decimal.AllDigits(ts[..8]) && Decimal.AllDigits(ts[9..15])
  {
    TimestampExtendsDate(t);
    DateShape(t);
    ClockShape(t);
    var ts := Format(t, TimeLayout);
    assert ts[..8] == Format(t, DateLayout);
    assert ts[9..15] == ClockDigits(t);
  }

  /** Reads a timestamp of layout "20060102T150405Z" back into an instant. */
  function ParseTimestamp(ts: Bytes): Option<DateTime>
  {
    if |ts| != 16 || ts[8] != T || ts[15] != Z
      || !Decimal.AllDigits(ts[..8]) || !Decimal.AllDigits(ts[9..15])
    then None
    else
      assert forall i :: 0 <= i < 4 ==> ts[..4][i] == ts[..8][i];
      assert forall i :: 0 <= i < 2 ==> ts[4..6][i] == ts[..8][i + 4];
      assert forall i :: 0 <= i < 2 ==> ts[6..8][i] == ts[..8][i + 6];
      assert forall i :: 0 <= i < 2 ==> ts[9..11][i] == ts[9..15][i];
      assert forall i :: 0 <= i < 2 ==> ts[11..13][i] == ts[9..15][i + 2];
      assert forall i :: 0 <= i < 2 ==> ts[13..15][i] == ts[9..15][i + 4];
      Some(DateTime(
        Decimal.ParseNat(ts[..4]), Decimal.ParseNat(ts[4..6]), Decimal.ParseNat(ts[6..8]),
        Decimal.ParseNat(ts[9..11]), Decimal.ParseNat(ts[11..13]), Decimal.ParseNat(ts[13..15])))
  }

  lemma Layout16(y: Bytes, mo: Bytes, d: Bytes, h: Bytes, mi: Bytes, sec: Bytes)
    requires |y| == 4 && |mo| == 2 && |d| == 2 && |h| == 2 && |mi| == 2 && |sec| == 2
    ensures var ts := (y + mo + d) + [T] + (h + mi + sec) + [Z];
      && |ts| == 16
      && ts[..4] == y && ts[4..6] == mo && ts[6..8] == d
      && ts[9..11] == h && ts[11..13] == mi && ts[13..15] == sec
  {
  }

  /** Where each field sits in a timestamp with a four-digit year. */
  lemma TimestampFields(t: DateTime)
    requires Valid(t) && FourDigitYear(t)
    ensures var ts := Format(t, TimeLayout);
      && |ts| == 16
      && ts[..4] == Decimal.AppendInt(t.year, 4)
      && ts[4..6] == Decimal.AppendInt(t.month, 2)
      && ts[6..8] == Decimal.AppendInt(t.day, 2)
      && ts[9..11] == Decimal.AppendInt(t.hour, 2)
      && ts[11..13] == Decimal.AppendInt(t.minute, 2)
      && ts[13..15] == Decimal.AppendInt(t.second, 2)
  {
    TimestampExtendsDate(t);
    FormatThree(t, LongYear, ZeroMonth, ZeroDay);
    FormatThree(t, Hour, ZeroMinute, ZeroSecond);
    Decimal.AppendIntWidth(t.year, 4);
    Decimal.AppendIntWidth(t.month, 2);
    Decimal.AppendIntWidth(t.day, 2);
    Decimal.AppendIntWidth(t.hour, 2);
    Decimal.AppendIntWidth(t.minute, 2);
    Decimal.AppendIntWidth(t.second, 2);
    Layout16(Decimal.AppendInt(t.year, 4), Decimal.AppendInt(t.month, 2), Decimal.AppendInt(t.day, 2),
      Decimal.AppendInt(t.hour, 2), Decimal.AppendInt(t.minute, 2), Decimal.AppendInt(t.second, 2));
  }

  /** The timestamp determines the instant it was made from: every field of a
      four-digit-year instant is read back unchanged. */
  lemma ParseFormat(t: DateTime)
    requires Valid(t) && FourDigitYear(t)
    ensures ParseTimestamp(Format(t, TimeLayout)) == Some(t)
  {
    TimestampShape(t);
    TimestampFields(t);
    Decimal.AppendIntParse(t.year, 4);
    Decimal.AppendIntParse(t.month, 2);
    Decimal.AppendIntParse(t.day, 2);
    Decimal.AppendIntParse(t.hour, 2);
    Decimal.AppendIntParse(t.minute, 2);
    Decimal.AppendIntParse(t.second, 2);
  }

  /** Distinct four-digit-year instants never share a timestamp. */
  lemma TimestampInjective(t1: DateTime, t2: DateTime)
    requires Valid(t1) && FourDigitYear(t1) && Valid(t2) && FourDigitYear(t2)
    requires Format(t1, TimeLayout) == Format(t2, TimeLayout)
    ensures t1 == t2
  {
    ParseFormat(t1);
    ParseFormat(t2);
  }

  /** The bytes a formatted instant is made of: digits, '-', 'T' and 'Z'. */
  predicate IsTimeByte(b: byte) {
    Decimal.IsDigit(b) || b == Decimal.Minus || b == T || b == Z
  }

  predicate AllTimeBytes(s: Bytes) {
    forall i :: 0 <= i < |s| ==> IsTimeByte(s[i])
  }

  predicate OwnLiterals(layout: seq<Element>) {
    forall k :: 0 <= k < |layout| ==> layout[k].Literal? ==> layout[k].b == T || layout[k].b == Z
  }

  lemma AppendIntBytes(x: int, width: nat)
    ensures AllTimeBytes(Decimal.AppendInt(x, width))
  {
    var u: nat := if x < 0 then -x else x;
    var ds := Decimal.Digits(u);
    var z: Bytes := if |ds| < width then Decimal.Zeros(width - |ds|) else [];
    var sign: Bytes := if x < 0 then [Decimal.Minus] else [];
    var s := Decimal.AppendInt(x, width);
    assert s == sign + z + ds;
    forall i | 0 <= i < |s| ensures IsTimeByte(s[i]) {
      if i < |sign| {
        assert s[i] == Decimal.Minus;
      } else if i < |sign| + |z| {
        assert s[i] == z[i - |sign|];
      } else {
        assert s[i] == ds[i - |sign| - |z|];
      }
    }
  }

  lemma RenderBytes(t: DateTime, e: Element)
    requires e.Literal? ==> e.b == T || e.b == Z
    ensures AllTimeBytes(Render(t, e))
  {
    match e
    case Literal(b) =>
    case LongYear => AppendIntBytes(t.year, 4);
    case ZeroMonth => AppendIntBytes(t.month, 2);
    case ZeroDay => AppendIntBytes(t.day, 2);
    case Hour => AppendIntBytes(t.hour, 2);
    case ZeroMinute => AppendIntBytes(t.minute, 2);
    case ZeroSecond => AppendIntBytes(t.second, 2);
  }

  lemma TimeBytesAppend(a: Bytes, b: Bytes)
    requires AllTimeBytes(a) && AllTimeBytes(b)
    ensures AllTimeBytes(a + b)
  {
    forall i | 0 <= i < |a + b| ensures IsTimeByte((a + b)[i]) {
      if i >= |a| {
        assert (a + b)[i] == b[i - |a|];
      }
    }
  }

  /** A formatted instant holds no byte but digits, '-', 'T' and 'Z'; in
      particular no newline, '/' or ';' that would break the layouts it is
      placed in. */
  lemma {:induction false} FormatBytes(t: DateTime, layout: seq<Element>)
    requires OwnLiterals(layout)
    ensures AllTimeBytes(Format(t, layout))
  {
    if |layout| > 0 {
      assert OwnLiterals(layout[1..]) by {
        forall k | 0 <= k < |layout[1..]| ensures layout[1..][k].Literal? ==> layout[1..][k].b == T || layout[1..][k].b == Z {
          assert layout[1..][k] == layout[k + 1];
        }
      }
      FormatBytes(t, layout[1..]);
      RenderBytes(t, layout[0]);
      TimeBytesAppend(Render(t, layout[0]), Format(t, layout[1..]));
    }
  }

  lemma LayoutBytes(t: DateTime)
    ensures AllTimeBytes(Format(t, DateLayout))
    ensures AllTimeBytes(Format(t, TimeLayout))
  {
    FormatBytes(t, DateLayout);
    FormatBytes(t, TimeLayout);
  }
}
