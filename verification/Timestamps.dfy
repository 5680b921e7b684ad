/**
 Decimal text, and timestamps in the fixed-width form that section 5.6 of
 RFC 3339 defines and the index stores: `YYYY-MM-DDThh:mm:ss.ffffffZ`.
 */
module Timestamps {
  import opened Text
  import opened Results

  // ----- decimal digits ----------------------------------------------------

  function Digit(d: nat): char
    requires d < 10
  {
    '0' + d as char
  }

  predicate IsDigits(s: string)
  {
    forall i :: 0 <= i < |s| ==> '0' <= s[i] <= '9'
  }

  function Value(s: string): nat
    requires IsDigits(s)
  {
    if s == "" then 0 else 10 * Value(s[..|s| - 1]) + (s[|s| - 1] - '0') as nat
  }

  function Pow10(w: nat): (p: nat)
    ensures p >= 1
  {
    if w == 0 then 1 else 10 * Pow10(w - 1)
  }

  /** The last `w` decimal digits of `n`. */
  function Pad(n: nat, w: nat): (s: string)
    ensures |s| == w && IsDigits(s)
  {
    if w == 0 then "" else Pad(n / 10, w - 1) + [Digit(n % 10)]
  }

  lemma {:induction false} PadValue(n: nat, w: nat)
    requires n < Pow10(w)
    ensures Value(Pad(n, w)) == n
  {
    if w > 0 {
      PadValue(n / 10, w - 1);
      assert Pad(n, w)[..w - 1] == Pad(n / 10, w - 1);
    }
  }

  /** Zero-padded numbers of one width are ordered as the numbers are. */
  lemma {:induction false} PadOrder(n: nat, m: nat, w: nat)
    requires n < Pow10(w) && m < Pow10(w)
    ensures Less(Pad(n, w), Pad(m, w)) <==> n < m
  {
    if w > 0 {
      var n', m' := n / 10, m / 10;
      var d, e := n % 10, m % 10;
      var a, b := Pad(n', w - 1), Pad(m', w - 1);
      PadOrder(n', m', w - 1);
      PadInjective(n', m', w - 1);
      LessFixedWidth(a, b, [Digit(d)], [Digit(e)]);
      DigitOrder(d, e);
      LastDigitOrder(n, m);
      assert Pad(n, w) == a + [Digit(d)] && Pad(m, w) == b + [Digit(e)];
    }
  }

  lemma PadInjective(n: nat, m: nat, w: nat)
    requires n < Pow10(w) && m < Pow10(w)
    ensures Pad(n, w) == Pad(m, w) <==> n == m
  {
    PadValue(n, w);
    PadValue(m, w);
  }

  lemma DigitOrder(d: nat, e: nat)
    requires d < 10 && e < 10
    ensures Less([Digit(d)], [Digit(e)]) <==> d < e
  {
  }

  lemma LastDigitOrder(n: nat, m: nat)
    ensures n < m <==> n / 10 < m / 10 || (n / 10 == m / 10 && n % 10 < m % 10)
  {
  }

  // ----- sizes -------------------------------------------------------------

  const USIZE_MAX: nat := 0xFFFF_FFFF_FFFF_FFFF

  /** A number in decimal, without leading zeros. */
  function Decimal(n: nat): (s: string)
    ensures s != "" && IsDigits(s)
  {
    if n < 10 then [Digit(n)] else Decimal(n / 10) + [Digit(n % 10)]
  }

  function Zeros(k: nat): (s: string)
    ensures |s| == k && IsDigits(s)
  {
    if k == 0 then "" else "0" + Zeros(k - 1)
  }

  /** A number padded on the left with zeros to at least ten digits. */
  function PaddedSize(n: nat): (s: string)
    ensures |s| >= 10 && IsDigits(s)
  {
    var t := Decimal(n);
    if |t| >= 10 then t else Zeros(10 - |t|) + t
  }

  /** Reads an unsigned machine integer: an optional plus sign and digits. */
  function ParseSize(s: string): Option<nat>
  {
    var d := if s != "" && s[0] == '+' then s[1..] else s;
    if d != "" && IsDigits(d) && Value(d) <= USIZE_MAX then Some(Value(d)) else None
  }

  lemma {:induction false} DecimalValue(n: nat)
    ensures Value(Decimal(n)) == n
  {
    var s := Decimal(n);
    if n < 10 {
      assert s[..|s| - 1] == "";
    } else {
      DecimalValue(n / 10);
      assert s[..|s| - 1] == Decimal(n / 10);
    }
  }

  lemma {:induction false} LeadingZeros(k: nat, t: string)
    requires IsDigits(t)
    ensures IsDigits(Zeros(k) + t) && Value(Zeros(k) + t) == Value(t)
  {
    if t == "" {
      assert Zeros(k) + t == Zeros(k);
      ZerosValue(k);
    } else {
      var s := Zeros(k) + t;
      LeadingZeros(k, t[..|t| - 1]);
      assert s[..|s| - 1] == Zeros(k) + t[..|t| - 1];
    }
  }

  lemma {:induction false} ZerosValue(k: nat)
    ensures Value(Zeros(k)) == 0
  {
    if k > 0 {
      ZerosValue(k - 1);
      ZerosEnd(k);
    }
  }

  lemma {:induction false} ZerosEnd(k: nat)
    requires k > 0
    ensures Zeros(k) == Zeros(k - 1) + "0"
  {
    if k > 1 { ZerosEnd(k - 1); }
  }

  /** A stored size is read back as the size that was stored. */
  lemma SizeRoundTrip(n: nat)
    ensures ParseSize(PaddedSize(n)) == if n <= USIZE_MAX then Some(n) else None
  {
    PaddedValue(n);
    assert PaddedSize(n)[0] != '+';
  }

  lemma PaddedValue(n: nat)
    ensures Value(PaddedSize(n)) == n
  {
    var t := Decimal(n);
    DecimalValue(n);
    if |t| < 10 { LeadingZeros(10 - |t|, t); }
  }

  // ----- date-times --------------------------------------------------------

  datatype DateTime = DateTime(year: nat, month: nat, day: nat,
                               hour: nat, minute: nat, second: nat, micro: nat)
  {
    // A leap second is written as 60.
    predicate Valid()
    {
      && year <= 9999 && 1 <= month <= 12 && 1 <= day <= 31
      && hour <= 23 && minute <= 59 && second <= 60 && micro <= 999_999
    }

    /** The position of the date-time in time order. */
    function Ordinal(): nat
    {
      MixedRadix([year, month, day, hour, minute, second, micro], [10_000, 13, 32, 24, 60, 61, 1_000_000])
    }
  }

  /** The number with the given digits, each below its own radix. */
  function MixedRadix(digits: seq<nat>, radix: seq<nat>): nat
    requires |digits| == |radix|
  {
    if digits == [] then 0
    else
      var n := |digits| - 1;
      MixedRadix(digits[..n], radix[..n]) * radix[n] + digits[n]
  }

  lemma OrdinalIs(t: DateTime)
    ensures t.Ordinal() ==
            (((((t.year * 13 + t.month) * 32 + t.day) * 24 + t.hour) * 60 + t.minute) * 61 + t.second) * 1_000_000
            + t.micro
  {
    var d: seq<nat> := [t.year, t.month, t.day, t.hour, t.minute, t.second, t.micro];
    var r: seq<nat> := [10_000, 13, 32, 24, 60, 61, 1_000_000];
    assert d[..7] == d && r[..7] == r && d[..0] == [];
    assert MixedRadix(d[..0], r[..0]) == 0;
    MixedRadixStep(d, r, 0);
    MixedRadixStep(d, r, 1);
    MixedRadixStep(d, r, 2);
    MixedRadixStep(d, r, 3);
    MixedRadixStep(d, r, 4);
    MixedRadixStep(d, r, 5);
    MixedRadixStep(d, r, 6);
  }

  lemma MixedRadixStep(d: seq<nat>, r: seq<nat>, k: nat)
    requires |d| == |r| && k < |d|
    ensures MixedRadix(d[..k + 1], r[..k + 1]) == MixedRadix(d[..k], r[..k]) * r[k] + d[k]
  {
    assert d[..k + 1][..k] == d[..k] && r[..k + 1][..k] == r[..k];
  }

  type Instant = t: DateTime | t.Valid() witness DateTime(1970, 1, 1, 0, 0, 0, 0)

  const EPOCH: Instant := DateTime(1970, 1, 1, 0, 0, 0, 0)

  predicate Before(a: Instant, b: Instant)
  {
    a.Ordinal() < b.Ordinal()
  }

  lemma OrdinalInjective(a: Instant, b: Instant)
    requires a.Ordinal() == b.Ordinal()
    ensures a == b
  {
    OrdinalOrder(a, b);
    OrdinalOrder(b, a);
    NeitherEarlier(a, b);
  }

  // ----- the text form -----------------------------------------------------

  // A number of fixed width and the character after it.
  datatype Slot = Slot(width: nat, sep: char)

  const LAYOUT: seq<Slot> :=
    [Slot(4, '-'), Slot(2, '-'), Slot(2, 'T'), Slot(2, ':'), Slot(2, ':'), Slot(2, '.'), Slot(6, 'Z')]

  function Parts(t: DateTime): seq<nat>
  {
    [t.year, t.month, t.day, t.hour, t.minute, t.second, t.micro]
  }

  function Render(vs: seq<nat>, layout: seq<Slot>): string
    requires |vs| == |layout|
  {
    if vs == [] then ""
    else Pad(vs[0], layout[0].width) + ([layout[0].sep] + Render(vs[1..], layout[1..]))
  }

  function Width(layout: seq<Slot>): nat
  {
    if layout == [] then 0 else layout[0].width + 1 + Width(layout[1..])
  }

  lemma {:induction false} RenderWidth(vs: seq<nat>, layout: seq<Slot>)
    requires |vs| == |layout|
    ensures |Render(vs, layout)| == Width(layout)
  {
    if vs != [] { RenderWidth(vs[1..], layout[1..]); }
  }

  /** The RFC 3339 text of a date-time, with microseconds and a Z suffix. */
  function Format(t: Instant): (s: string)
    ensures |s| == 27
  {
    RenderWidth(Parts(t), LAYOUT);
    assert Width(LAYOUT) == 27;
    Render(Parts(t), LAYOUT)
  }

  /** Reads numbers laid out in text; anything else is an error. */
  function Scan(s: string, layout: seq<Slot>): Option<seq<nat>>
  {
    if layout == [] then if s == "" then Some([]) else None
    else
      var w := layout[0].width;
      if |s| > w && IsDigits(s[..w]) && s[w] == layout[0].sep then
        match Scan(s[w + 1..], layout[1..])
        case None => None
        case Some(vs) => Some([Value(s[..w])] + vs)
      else None
  }

  /** Reads the text form back. */
  function ParseInstant(s: string): Option<Instant>
  {
    match Scan(s, LAYOUT)
    case None => None
    case Some(vs) =>
      if |vs| != 7 then None
      else
        var t := DateTime(vs[0], vs[1], vs[2], vs[3], vs[4], vs[5], vs[6]);
        if t.Valid() then Some(t) else None
  }

  predicate Fits(vs: seq<nat>, layout: seq<Slot>)
  {
    |vs| == |layout| && forall i :: 0 <= i < |vs| ==> vs[i] < Pow10(layout[i].width)
  }

  lemma FitsTail(vs: seq<nat>, layout: seq<Slot>)
    requires Fits(vs, layout) && vs != []
    ensures Fits(vs[1..], layout[1..]) && vs[0] < Pow10(layout[0].width)
  {
  }

  lemma ScanStep(head: string, tail: string, layout: seq<Slot>, rest: seq<nat>)
    requires layout != [] && |head| == layout[0].width && IsDigits(head) && Scan(tail, layout[1..]) == Some(rest)
    ensures Scan(head + ([layout[0].sep] + tail), layout) == Some([Value(head)] + rest)
  {
    var s, w := head + ([layout[0].sep] + tail), |head|;
    assert s[..w] == head && s[w] == layout[0].sep && s[w + 1..] == tail;
  }

  lemma {:induction false} ScanRender(vs: seq<nat>, layout: seq<Slot>)
    requires Fits(vs, layout)
    ensures Scan(Render(vs, layout), layout) == Some(vs)
  {
    if vs != [] {
      var v, rest, w := vs[0], vs[1..], layout[0].width;
      FitsTail(vs, layout);
      ScanRender(rest, layout[1..]);
      PadValue(v, w);
      ScanStep(Pad(v, w), Render(rest, layout[1..]), layout, rest);
      assert vs == [v] + rest;
    }
  }

  lemma InstantFits(t: Instant)
    ensures Fits(Parts(t), LAYOUT)
  {
    assert Pow10(1) == 10 && Pow10(2) == 100 && Pow10(3) == 1_000;
    assert Pow10(4) == 10_000 && Pow10(5) == 100_000 && Pow10(6) == 1_000_000;
  }

  /** A stored timestamp is read back as the timestamp that was stored. */
  lemma InstantRoundTrip(t: Instant)
    ensures ParseInstant(Format(t)) == Some(t)
  {
    InstantFits(t);
    ScanRender(Parts(t), LAYOUT);
  }

  /** Lexicographic order on numbers. */
  predicate Precedes(a: seq<nat>, b: seq<nat>)
    requires |a| == |b|
  {
    a != [] && (a[0] < b[0] || (a[0] == b[0] && Precedes(a[1..], b[1..])))
  }

  lemma {:induction false} RenderOrder(a: seq<nat>, b: seq<nat>, layout: seq<Slot>)
    requires Fits(a, layout) && Fits(b, layout)
    ensures Less(Render(a, layout), Render(b, layout)) <==> Precedes(a, b)
  {
    if a != [] {
      var w := layout[0].width;
      var x, y := Render(a[1..], layout[1..]), Render(b[1..], layout[1..]);
      RenderOrder(a[1..], b[1..], layout[1..]);
      PadOrder(a[0], b[0], w);
      PadValue(a[0], w);
      PadValue(b[0], w);
      LessFixedWidth(Pad(a[0], w), Pad(b[0], w), [layout[0].sep] + x, [layout[0].sep] + y);
      LessCancel([layout[0].sep], x, y);
    }
  }

  predicate EarlierInDay(a: Instant, b: Instant)
  {
    a.hour < b.hour || (a.hour == b.hour &&
    (a.minute < b.minute || (a.minute == b.minute &&
    (a.second < b.second || (a.second == b.second && a.micro < b.micro)))))
  }

  predicate Earlier(a: Instant, b: Instant)
  {
    a.year < b.year || (a.year == b.year &&
    (a.month < b.month || (a.month == b.month &&
    (a.day < b.day || (a.day == b.day && EarlierInDay(a, b))))))
  }

  lemma NeitherEarlier(a: Instant, b: Instant)
    requires !Earlier(a, b) && !Earlier(b, a)
    ensures a == b
  {
  }

  lemma OrdinalOrder(a: Instant, b: Instant)
    ensures Before(a, b) <==> Earlier(a, b)
  {
    OrdinalIs(a);
    OrdinalIs(b);
  }

  lemma PartsOrder(a: Instant, b: Instant)
    ensures Precedes(Parts(a), Parts(b)) <==> Earlier(a, b)
  {
    var x, y := Parts(a), Parts(b);
    assert x[0..] == x && y[0..] == y && x[7..] == [] && y[7..] == [];
    PrecedesStep(x, y, 6);
    PrecedesStep(x, y, 5);
    PrecedesStep(x, y, 4);
    PrecedesStep(x, y, 3);
    PrecedesStep(x, y, 2);
    PrecedesStep(x, y, 1);
    PrecedesStep(x, y, 0);
  }

  lemma PrecedesStep(x: seq<nat>, y: seq<nat>, k: nat)
    requires |x| == |y| && k < |x|
    ensures Precedes(x[k..], y[k..]) <==> x[k] < y[k] || (x[k] == y[k] && Precedes(x[k + 1..], y[k + 1..]))
  {
    assert x[k..][1..] == x[k + 1..] && y[k..][1..] == y[k + 1..];
  }

  /** String order of timestamps is time order (section 5.1 of RFC 3339). */
  lemma FormatOrder(a: Instant, b: Instant)
    ensures Less(Format(a), Format(b)) <==> Before(a, b)
  {
    InstantFits(a);
    InstantFits(b);
    RenderOrder(Parts(a), Parts(b), LAYOUT);
    PartsOrder(a, b);
    OrdinalOrder(a, b);
  }

  lemma FormatInjective(a: Instant, b: Instant)
    requires Format(a) == Format(b)
    ensures a == b
  {
    InstantRoundTrip(a);
    InstantRoundTrip(b);
  }
}
