/**
 * Hybrid logical clocks (edge/src/registry-core.ts). A clock is a string; all the source ever does
 * with one is compare it with `>`, so the order below is JavaScript's order on strings.
 */
module Hlc {
  import opened Options

  type Hlc = string

  const MS_WIDTH := 13
  const COUNTER_WIDTH := 6

  // ---------- the order on strings ----------

  predicate Less(a: string, b: string) {
    if b == "" then false
    else if a == "" then true
    else if a[0] != b[0] then a[0] < b[0]
    else Less(a[1..], b[1..])
  }

  /** `a < b` on clocks; a name of its own, so that facts about the order are used only where clocks are compared. */
  predicate Before(a: Hlc, b: Hlc) {
    Less(a, b)
  }

  lemma {:induction false} LessTrichotomy(a: string, b: string)
    ensures Less(a, b) || a == b || Less(b, a)
    ensures !(Less(a, b) && Less(b, a))
    ensures a == b ==> !Less(a, b)
  {
    if a != "" && b != "" && a[0] == b[0] {
      LessTrichotomy(a[1..], b[1..]);
      assert a == [a[0]] + a[1..] && b == [b[0]] + b[1..];
    }
  }

  lemma {:induction false} LessTransitive(a: string, b: string, c: string)
    requires Less(a, b) && Less(b, c)
    ensures Less(a, c)
  {
    if a != "" && a[0] == b[0] && b[0] == c[0] {
      LessTransitive(a[1..], b[1..], c[1..]);
    }
  }

  /** Clocks are strictly and totally ordered: two different clocks never tie. */
  lemma ClocksAreTotallyOrdered()
    ensures forall a, b {:trigger Before(a, b)} :: Before(a, b) || a == b || Before(b, a)
    ensures forall a, b {:trigger Before(a, b)} :: !(Before(a, b) && Before(b, a))
    ensures forall a, b, c {:trigger Before(a, b), Before(b, c)} :: Before(a, b) && Before(b, c) ==> Before(a, c)
  {
    forall a: string, b: string
      ensures Before(a, b) || a == b || Before(b, a)
      ensures !(Before(a, b) && Before(b, a))
    {
      LessTrichotomy(a, b);
    }
    forall a: string, b: string, c: string | Before(a, b) && Before(b, c)
      ensures Before(a, c)
    {
      LessTransitive(a, b, c);
    }
  }

  /** `a` strictly newer than `b`; a clock that was never written loses to any. */
  predicate HlcNewer(a: Hlc, b: Option<Hlc>) {
    b.None? || Before(b.value, a)
  }

  // ---------- the encoding ----------

  function Digit(d: nat): char
    requires d < 10
  {
    ('0' as int + d) as char
  }

  /** `String(n)` for a natural number. */
  function Decimal(n: nat): string {
    if n < 10 then [Digit(n)] else Decimal(n / 10) + [Digit(n % 10)]
  }

  /** `String(n)` for any integer. */
  function DecimalInt(n: int): string {
    if n < 0 then "-" + Decimal(-n) else Decimal(n)
  }

  /** `s.padStart(width, "0")`. */
  function PadStart(s: string, width: nat): string {
    if |s| >= width then s else seq(width - |s|, _ => '0') + s
  }

  function EncodeHlc(ms: nat, counter: nat, device: string): Hlc {
    PadStart(Decimal(ms), MS_WIDTH) + "-" + PadStart(Decimal(counter), COUNTER_WIDTH) + "-" + device
  }

  function Pow10(k: nat): nat {
    if k == 0 then 1 else 10 * Pow10(k - 1)
  }

  /** Exactly `width` decimal digits of `n`: what padding produces while `n` fits. */
  function Fixed(n: nat, width: nat): string {
    if width == 0 then "" else Fixed(n / 10, width - 1) + [Digit(n % 10)]
  }

  lemma {:induction false} FixedZero(width: nat)
    ensures Fixed(0, width) == seq(width, _ => '0')
  {
    if width > 0 {
      FixedZero(width - 1);
    }
  }

  lemma {:induction false} PaddingIsFixed(n: nat, width: nat)
    requires width > 0
    ensures n < Pow10(width) ==> PadStart(Decimal(n), width) == Fixed(n, width) && |Decimal(n)| <= width
    ensures n >= Pow10(width) ==> |Decimal(n)| > width
  {
    if n < 10 {
      assert Fixed(n, width) == Fixed(0, width - 1) + [Digit(n)];
      FixedZero(width - 1);
      assert Pow10(width) >= 10 by { PowIsPositive(width - 1); }
    } else if width == 1 {
      assert Pow10(1) == 10;
      assert Decimal(n) == Decimal(n / 10) + [Digit(n % 10)];
      DecimalIsNonEmpty(n / 10);
    } else {
      PaddingIsFixed(n / 10, width - 1);
      assert Decimal(n) == Decimal(n / 10) + [Digit(n % 10)];
    }
  }

  lemma {:induction false} PowIsPositive(k: nat)
    ensures Pow10(k) >= 1
  {
    if k > 0 {
      PowIsPositive(k - 1);
    }
  }

  lemma DecimalIsNonEmpty(n: nat)
    ensures |Decimal(n)| > 0
  {
  }

  lemma {:induction false} FixedOrder(a: nat, b: nat, width: nat, x: string, y: string)
    requires a < Pow10(width) && b < Pow10(width)
    ensures Less(Fixed(a, width) + x, Fixed(b, width) + y) <==> a < b || (a == b && Less(x, y))
  {
    if width == 0 {
      assert Fixed(a, 0) + x == x && Fixed(b, 0) + y == y;
    } else {
      var x', y' := [Digit(a % 10)] + x, [Digit(b % 10)] + y;
      assert Fixed(a, width) + x == Fixed(a / 10, width - 1) + x';
      assert Fixed(b, width) + y == Fixed(b / 10, width - 1) + y';
      assert x'[1..] == x && y'[1..] == y;
      FixedOrder(a / 10, b / 10, width - 1, x', y');
    }
  }

  ghost predicate InRange(ms: nat, counter: nat) {
    ms < Pow10(MS_WIDTH) && counter < Pow10(COUNTER_WIDTH)
  }

  lemma DashOrder(x: string, y: string)
    ensures Less("-" + x, "-" + y) == Less(x, y)
  {
    assert ("-" + x)[1..] == x && ("-" + y)[1..] == y;
  }

  lemma EncodeShape(ms: nat, counter: nat, device: string)
    requires InRange(ms, counter)
    ensures EncodeHlc(ms, counter, device) ==
            Fixed(ms, MS_WIDTH) + ("-" + (Fixed(counter, COUNTER_WIDTH) + ("-" + device)))
  {
    PaddingIsFixed(ms, MS_WIDTH);
    PaddingIsFixed(counter, COUNTER_WIDTH);
  }

  /** String order on encoded clocks is exactly lexicographic order on (ms, counter, device). */
  lemma EncodingKeepsOrder(ms: nat, counter: nat, device: string, ms': nat, counter': nat, device': string)
    requires InRange(ms, counter) && InRange(ms', counter')
    ensures Before(EncodeHlc(ms, counter, device), EncodeHlc(ms', counter', device')) <==>
            ms < ms' || (ms == ms' && (counter < counter' || (counter == counter' && Less(device, device'))))
  {
    EncodeShape(ms, counter, device);
    EncodeShape(ms', counter', device');
    var low, low' := "-" + device, "-" + device';
    DashOrder(device, device');
    FixedOrder(counter, counter', COUNTER_WIDTH, low, low');
    var mid, mid' := Fixed(counter, COUNTER_WIDTH) + low, Fixed(counter', COUNTER_WIDTH) + low';
    DashOrder(mid, mid');
    FixedOrder(ms, ms', MS_WIDTH, "-" + mid, "-" + mid');
  }

  /** The encoding keeps its fixed width exactly while the number fits: past it, validation sees too many digits. */
  lemma WidthIsExact(ms: nat, counter: nat)
    ensures |PadStart(Decimal(ms), MS_WIDTH)| == MS_WIDTH <==> ms < Pow10(MS_WIDTH)
    ensures |PadStart(Decimal(counter), COUNTER_WIDTH)| == COUNTER_WIDTH <==> counter < Pow10(COUNTER_WIDTH)
  {
    PaddingIsFixed(ms, MS_WIDTH);
    PaddingIsFixed(counter, COUNTER_WIDTH);
  }

  lemma {:induction false} LeadingDigits(k: nat)
    requires k > 0
    ensures Pow10(k) > 9 && Decimal(Pow10(k))[0] == '1' && Decimal(Pow10(k) - 1)[0] == '9'
  {
    if k > 1 {
      LeadingDigits(k - 1);
      assert Pow10(k) / 10 == Pow10(k - 1) && (Pow10(k) - 1) / 10 == Pow10(k - 1) - 1;
      DecimalIsNonEmpty(Pow10(k - 1));
      DecimalIsNonEmpty(Pow10(k - 1) - 1);
    }
  }

  /**
   * Past either width the order is lost: the first 14-digit millisecond sorts before the last 13-digit one, and
   * within one millisecond the first 7-digit counter sorts before the last 6-digit one.
   */
  lemma WideClocksMisorder(ms: nat, counter: nat, device: string)
    ensures Before(EncodeHlc(Pow10(MS_WIDTH), counter, device), EncodeHlc(Pow10(MS_WIDTH) - 1, counter, device))
    ensures Before(EncodeHlc(ms, Pow10(COUNTER_WIDTH), device), EncodeHlc(ms, Pow10(COUNTER_WIDTH) - 1, device))
  {
    WideMillisecondsMisorder(counter, device);
    WideCountersMisorder(ms, device);
  }

  lemma WideMillisecondsMisorder(counter: nat, device: string)
    ensures Before(EncodeHlc(Pow10(MS_WIDTH), counter, device), EncodeHlc(Pow10(MS_WIDTH) - 1, counter, device))
  {
    WidePartMisorders(MS_WIDTH);
  }

  lemma WideCountersMisorder(ms: nat, device: string)
    ensures Before(EncodeHlc(ms, Pow10(COUNTER_WIDTH), device), EncodeHlc(ms, Pow10(COUNTER_WIDTH) - 1, device))
  {
    WidePartMisorders(COUNTER_WIDTH);
    var head := PadStart(Decimal(ms), MS_WIDTH) + "-";
    EncodingTail(ms, Pow10(COUNTER_WIDTH), device);
    EncodingTail(ms, Pow10(COUNTER_WIDTH) - 1, device);
    LessAfterPrefix(head, CounterTail(Pow10(COUNTER_WIDTH), device), CounterTail(Pow10(COUNTER_WIDTH) - 1, device));
  }

  function CounterTail(counter: nat, device: string): string {
    PadStart(Decimal(counter), COUNTER_WIDTH) + ("-" + device)
  }

  lemma EncodingTail(ms: nat, counter: nat, device: string)
    ensures EncodeHlc(ms, counter, device) == PadStart(Decimal(ms), MS_WIDTH) + "-" + CounterTail(counter, device)
  {
  }

  /** The first number past the width starts with a 1, the last one inside it with a 9. */
  lemma WidePartMisorders(width: nat)
    requires width > 0
    ensures Pow10(width) > 0
    ensures var wide, last := PadStart(Decimal(Pow10(width)), width), PadStart(Decimal(Pow10(width) - 1), width);
            wide != "" && last != "" && wide[0] == '1' && last[0] == '9'
  {
    LeadingDigits(width);
    PaddingIsFixed(Pow10(width), width);
    PaddingIsFixed(Pow10(width) - 1, width);
    DigitsFillTheWidth(width);
  }

  lemma {:induction false} PrefixIsLess(m: string, t: string)
    requires t != ""
    ensures Less(m, m + t)
  {
    if m != "" {
      assert (m + t)[1..] == m[1..] + t;
      PrefixIsLess(m[1..], t);
    }
  }

  lemma {:induction false} LessAfterPrefix(head: string, a: string, b: string)
    ensures Less(head + a, head + b) == Less(a, b)
  {
    if head == "" {
      assert head + a == a && head + b == b;
    } else {
      assert (head + a)[1..] == head[1..] + a && (head + b)[1..] == head[1..] + b;
      LessAfterPrefix(head[1..], a, b);
    }
  }

  lemma {:induction false} DigitsFillTheWidth(k: nat)
    requires k > 0
    ensures Pow10(k) > 0 && |Decimal(Pow10(k) - 1)| == k
  {
    PowIsPositive(k - 1);
    if k > 1 {
      DigitsFillTheWidth(k - 1);
      assert (Pow10(k) - 1) / 10 == Pow10(k - 1) - 1;
    }
  }

  // ---------- validation ----------

  predicate Lower(c: char) { 'a' <= c <= 'z' }

  predicate Letter(c: char) { Lower(c) || 'A' <= c <= 'Z' }

  predicate IsDigit(c: char) { '0' <= c <= '9' }

  predicate AlphaNum(c: char) { Letter(c) || IsDigit(c) }

  predicate ValidHlc(s: string) {
    && 22 <= |s| <= 149 && s[13] == '-' && s[20] == '-'
    && (forall i :: 0 <= i < 13 ==> IsDigit(s[i]))
    && (forall i :: 14 <= i < 20 ==> IsDigit(s[i]))
    && (forall i :: 21 <= i < |s| ==> AlphaNum(s[i]) || s[i] == '_' || s[i] == '-')
  }

  predicate ValidDevice(device: string) {
    1 <= |device| <= 128 && forall i :: 0 <= i < |device| ==>
        AlphaNum(device[i]) || device[i] == '_' || device[i] == '-'
  }

  lemma {:induction false} DecimalIsDigits(n: nat)
    ensures forall i :: 0 <= i < |Decimal(n)| ==> IsDigit(Decimal(n)[i])
  {
    if n >= 10 {
      DecimalIsDigits(n / 10);
    }
  }

  lemma PaddedIsDigits(n: nat, width: nat)
    requires width > 0
    ensures var p := PadStart(Decimal(n), width);
            && |p| >= width && (|p| == width <==> n < Pow10(width))
            && forall i :: 0 <= i < |p| ==> IsDigit(p[i])
  {
    PaddingIsFixed(n, width);
    DecimalIsDigits(n);
  }

  /** Validation accepts an encoded clock exactly when both numbers fit their width and the device has its form. */
  lemma ValidEncodings(ms: nat, counter: nat, device: string)
    ensures ValidHlc(EncodeHlc(ms, counter, device)) <==> InRange(ms, counter) && ValidDevice(device)
  {
    var s := EncodeHlc(ms, counter, device);
    var p, q := PadStart(Decimal(ms), MS_WIDTH), PadStart(Decimal(counter), COUNTER_WIDTH);
    PaddedIsDigits(ms, MS_WIDTH);
    PaddedIsDigits(counter, COUNTER_WIDTH);
    if |p| > MS_WIDTH {
      assert s[13] == p[13];
    } else if |q| > COUNTER_WIDTH {
      assert s[20] == q[6];
    } else {
      assert s[..13] == p && s[14..20] == q && s[21..] == device;
      assert forall i :: 0 <= i < 13 ==> s[i] == p[i];
      assert forall i :: 14 <= i < 20 ==> s[i] == q[i - 14];
      assert forall i :: 21 <= i < |s| ==> s[i] == device[i - 21];
      assert forall i :: 0 <= i < |device| ==> device[i] == s[i + 21];
    }
  }

  /** The number that a string of digits is written for. */
  function Number(s: string): nat
    requires forall i :: 0 <= i < |s| ==> IsDigit(s[i])
  {
    if s == "" then 0 else 10 * Number(s[..|s| - 1]) + DigitValue(s[|s| - 1])
  }

  function DigitValue(c: char): nat
    requires IsDigit(c)
  {
    c as int - '0' as int
  }

  lemma {:induction false} NumberIsFixed(s: string)
    requires forall i :: 0 <= i < |s| ==> IsDigit(s[i])
    ensures Number(s) < Pow10(|s|) && Fixed(Number(s), |s|) == s
  {
    if s != "" {
      var rest, d := s[..|s| - 1], DigitValue(s[|s| - 1]);
      NumberIsFixed(rest);
      assert Number(s) / 10 == Number(rest) && Number(s) % 10 == d;
      assert s == rest + [Digit(d)];
    }
  }

  function MsOf(s: Hlc): nat
    requires ValidHlc(s)
  {
    Number(s[..13])
  }

  lemma ClockParts(s: string)
    requires |s| >= 21 && s[13] == '-' && s[20] == '-'
    ensures s == s[..13] + "-" + s[14..20] + "-" + s[21..]
  {
  }

  /** Every clock that passes validation is the encoding of numbers that fit. */
  lemma ValidClocksDecode(s: Hlc)
    requires ValidHlc(s)
    ensures var counter, device := Number(s[14..20]), s[21..];
            InRange(MsOf(s), counter) && ValidDevice(device) && s == EncodeHlc(MsOf(s), counter, device)
  {
    var counter, device := Number(s[14..20]), s[21..];
    NumberIsFixed(s[..13]);
    NumberIsFixed(s[14..20]);
    PaddingIsFixed(MsOf(s), MS_WIDTH);
    PaddingIsFixed(counter, COUNTER_WIDTH);
    ClockParts(s);
  }

  /** `${String(horizon).padStart(13, "0")}-`, the bound tombstone GC compares with. */
  function HorizonHlc(horizon: int): string {
    PadStart(DecimalInt(horizon), MS_WIDTH) + "-"
  }

  /** Comparing with the horizon string selects exactly the clocks whose milliseconds lie below the horizon. */
  lemma HorizonSelectsOlderClocks(ms: nat, counter: nat, device: string, horizon: nat)
    requires InRange(ms, counter) && horizon < Pow10(MS_WIDTH)
    ensures Before(EncodeHlc(ms, counter, device), HorizonHlc(horizon)) <==> ms < horizon
  {
    EncodeShape(ms, counter, device);
    PaddingIsFixed(horizon, MS_WIDTH);
    var tail := Fixed(counter, COUNTER_WIDTH) + ("-" + device);
    assert HorizonHlc(horizon) == Fixed(horizon, MS_WIDTH) + ("-" + "");
    DashOrder(tail, "");
    FixedOrder(ms, horizon, MS_WIDTH, "-" + tail, "-" + "");
  }

  lemma {:induction false} NothingBelowDash(digits: string, tail: string, zeroes: nat, rest: string)
    requires zeroes < |digits| && forall i :: 0 <= i < |digits| ==> IsDigit(digits[i])
    ensures !Less(digits + tail, seq(zeroes, _ => '0') + ("-" + rest))
  {
    var bound := seq(zeroes, _ => '0') + ("-" + rest);
    if zeroes > 0 {
      assert bound[1..] == seq(zeroes - 1, _ => '0') + ("-" + rest);
      assert (digits + tail)[1..] == digits[1..] + tail;
      NothingBelowDash(digits[1..], tail, zeroes - 1, rest);
    }
  }

  /** A valid clock is older than the horizon string exactly when its milliseconds are, before the epoch included. */
  lemma HorizonSelectsValidClocks(s: Hlc, horizon: int)
    requires ValidHlc(s) && -horizon < Pow10(MS_WIDTH - 1) && horizon < Pow10(MS_WIDTH)
    ensures Before(s, HorizonHlc(horizon)) <==> MsOf(s) < horizon
  {
    ValidClocksDecode(s);
    if horizon >= 0 {
      HorizonSelectsOlderClocks(MsOf(s), Number(s[14..20]), s[21..], horizon);
    } else {
      PaddingIsFixed(-horizon, MS_WIDTH - 1);
      DecimalIsNonEmpty(-horizon);
      var digits := Decimal(-horizon);
      var zeroes: nat := MS_WIDTH - 1 - |digits|;
      assert HorizonHlc(horizon) == seq(zeroes, _ => '0') + ("-" + (digits + "-"));
      assert s == s[..13] + s[13..];
      NothingBelowDash(s[..13], s[13..], zeroes, digits + "-");
    }
  }
}
