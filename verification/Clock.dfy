/** The logical clock: an int64 that continues as a decimal string once it overflows. */
module Clock {
  import opened Meta
  import Text

  predicate IsDigit(c: char) {
    '0' <= c <= '9'
  }

  ghost predicate AllDigits(s: string) {
    forall i :: 0 <= i < |s| ==> IsDigit(s[i])
  }

  /** The number a digit string denotes. */
  ghost function DecimalValue(s: string): nat
    requires AllDigits(s)
  {
    if s == [] then 0
    else 10 * DecimalValue(s[..|s| - 1]) + (s[|s| - 1] as int - '0' as int)
  }

  /** A digit string without a leading zero. */
  ghost predicate Canonical(s: string) {
    s != [] && AllDigits(s) && s[0] != '0'
  }

  /** `strconv.FormatInt` in base 10, for numbers that are not negative. */
  function FormatInt(n: nat): string {
    if n < 10 then [(n + '0' as int) as char]
    else FormatInt(n / 10) + [(n % 10 + '0' as int) as char]
  }

  lemma {:induction false} FormatIntRoundTrip(n: nat)
    ensures AllDigits(FormatInt(n)) && DecimalValue(FormatInt(n)) == n
    ensures n > 0 ==> Canonical(FormatInt(n))
    decreases n
  {
    if n >= 10 {
      FormatIntRoundTrip(n / 10);
      assert FormatInt(n)[..|FormatInt(n)| - 1] == FormatInt(n / 10);
    }
  }

  method ClockDigits(c: int64) returns (digits: string)
    requires c > 0
    ensures Canonical(digits) && DecimalValue(digits) == c as int
  {
    FormatIntRoundTrip(c as int);
    digits := FormatInt(c as int);
  }

  ghost function Pow10(n: nat): nat {
    if n == 0 then 1 else 10 * Pow10(n - 1)
  }

  lemma Pow10Of18()
    ensures Pow10(18) == 1_000_000_000_000_000_000
  {
    assert Pow10(2) == 100;
    assert Pow10(4) == 10_000;
    assert Pow10(6) == 1_000_000;
    assert Pow10(8) == 100_000_000;
    assert Pow10(10) == 10_000_000_000;
    assert Pow10(12) == 1_000_000_000_000;
    assert Pow10(14) == 100_000_000_000_000;
    assert Pow10(16) == 10_000_000_000_000_000;
  }

  lemma {:induction false} DigitsBound(s: string, n: nat)
    requires AllDigits(s) && |s| <= n
    ensures DecimalValue(s) < Pow10(n)
    decreases n
  {
    if n > 0 {
      DigitsBound(if s == [] then [] else s[..|s| - 1], n - 1);
    }
  }

  /** A metadata clock is well formed when the extension is absent, or is the
      canonical decimal form of a number that does not fit in 64 bits. */
  ghost predicate ValidClock(f: FileMeta) {
    f.bigClock != "" ==>
      f.clock == MAX_INT64 && Canonical(f.bigClock) && DecimalValue(f.bigClock) > MAX_INT64 as int
  }

  /** The number a valid clock stands for. */
  ghost function ClockValue(f: FileMeta): int
    requires ValidClock(f)
  {
    if f.bigClock != "" then DecimalValue(f.bigClock) else f.StateClock() as int
  }

  function CompareDecimal(a: string, b: string): int {
    if |a| < |b| then -1 else if |a| > |b| then 1 else Text.Compare(a, b)
  }

  function CompareInt(a: int, b: int): int {
    if a < b then -1 else if a > b then 1 else 0
  }

  function CompareClock(a: FileMeta, b: FileMeta): int {
    if a.bigClock != "" && b.bigClock != "" then CompareDecimal(a.bigClock, b.bigClock)
    else if a.bigClock != "" then 1
    else if b.bigClock != "" then -1
    else CompareInt(a.StateClock() as int, b.StateClock() as int)
  }

  /** For strings of one length, the last character decides only a tie. */
  lemma {:induction false} CompareLast(a: string, b: string, x: char, y: char)
    requires |a| == |b|
    ensures Text.Compare(a + [x], b + [y]) ==
            if Text.Compare(a, b) != 0 then Text.Compare(a, b)
            else CompareInt(x as int, y as int)
    decreases |a|
  {
    if a != [] {
      assert (a + [x])[1..] == a[1..] + [x] && (b + [y])[1..] == b[1..] + [y];
      CompareLast(a[1..], b[1..], x, y);
    }
  }

  lemma {:induction false} ShorterIsSmaller(a: string, b: string)
    requires AllDigits(a) && Canonical(b) && |a| < |b|
    ensures DecimalValue(a) < DecimalValue(b)
    decreases |b|
  {
    var b' := b[..|b| - 1];
    if b' == [] {
      assert DecimalValue(b') == 0;
    } else if a == [] {
      ShorterIsSmaller(a, b');
    } else {
      ShorterIsSmaller(a[..|a| - 1], b');
    }
  }

  lemma {:induction false} SameLengthNumeric(a: string, b: string)
    requires AllDigits(a) && AllDigits(b) && |a| == |b|
    ensures Text.Compare(a, b) == CompareInt(DecimalValue(a), DecimalValue(b))
    decreases |a|
  {
    if a != [] {
      var n := |a| - 1;
      assert a == a[..n] + [a[n]] && b == b[..n] + [b[n]];
      CompareLast(a[..n], b[..n], a[n], b[n]);
      SameLengthNumeric(a[..n], b[..n]);
    }
  }

  /** Comparing two canonical digit strings by length and then by text compares
      the numbers they denote. */
  lemma CompareDecimalNumeric(a: string, b: string)
    requires Canonical(a) && Canonical(b)
    ensures CompareDecimal(a, b) == CompareInt(DecimalValue(a), DecimalValue(b))
  {
    if |a| < |b| {
      ShorterIsSmaller(a, b);
    } else if |b| < |a| {
      ShorterIsSmaller(b, a);
    } else {
      SameLengthNumeric(a, b);
    }
  }

  /** `CompareClock` on validated metadata is numeric comparison, across the
      boundary between the int64 clock and its decimal continuation. */
  lemma CompareClockNumeric(a: FileMeta, b: FileMeta)
    requires ValidClock(a) && ValidClock(b)
    ensures CompareClock(a, b) == CompareInt(ClockValue(a), ClockValue(b))
  {
    if a.bigClock != "" && b.bigClock != "" {
      CompareDecimalNumeric(a.bigClock, b.bigClock);
    }
  }

  method ValidateClock(f: FileMeta) returns (ok: bool)
    ensures ok <==> ValidClock(f)
  {
    if f.bigClock == "" {
      return true;
    }
    if f.clock != MAX_INT64 || |f.bigClock| < 19 || f.bigClock[0] == '0' {
      if Canonical(f.bigClock) && |f.bigClock| < 19 {
        DigitsBound(f.bigClock, 18);
        Pow10Of18();
      }
      return false;
    }
    var i := 0;
    while i < |f.bigClock|
      invariant 0 <= i <= |f.bigClock|
      invariant forall j :: 0 <= j < i ==> IsDigit(f.bigClock[j])
    {
      if f.bigClock[i] < '0' || f.bigClock[i] > '9' {
        assert !IsDigit(f.bigClock[i]);
        return false;
      }
      i := i + 1;
    }
    var limit := ClockDigits(MAX_INT64);
    CompareDecimalNumeric(f.bigClock, limit);
    return CompareDecimal(f.bigClock, limit) > 0;
  }

  /** Adding one to a digit string, by carrying from the last digit. */
  ghost function Increment(s: string): string
    requires AllDigits(s)
  {
    if s == [] then "1"
    else if s[|s| - 1] == '9' then Increment(s[..|s| - 1]) + "0"
    else s[..|s| - 1] + [s[|s| - 1] + 1 as char]
  }

  lemma {:induction false} IncrementAddsOne(s: string)
    requires AllDigits(s)
    ensures AllDigits(Increment(s)) && DecimalValue(Increment(s)) == DecimalValue(s) + 1
    ensures s == [] || s[0] != '0' ==> Canonical(Increment(s))
    decreases |s|
  {
    if s != [] {
      var init, r := s[..|s| - 1], Increment(s);
      IncrementAddsOne(init);
      if s[|s| - 1] == '9' {
        assert r[..|r| - 1] == Increment(init);
      } else {
        assert r[..|r| - 1] == init;
      }
    }
  }

  ghost function Zeros(n: nat): string {
    seq(n, _ => '0')
  }

  /** Where the carry stops: behind position `i` there are only nines. */
  lemma {:induction false} CarryStops(s: string, i: int)
    requires AllDigits(s) && -1 <= i < |s|
    requires forall k :: i < k < |s| ==> s[k] == '9'
    requires i >= 0 ==> s[i] != '9'
    ensures Increment(s) == (if i < 0 then "1" else s[..i] + [s[i] + 1 as char]) + Zeros(|s| - i - 1)
    decreases |s|
  {
    if s != [] && i < |s| - 1 {
      var init := s[..|s| - 1];
      CarryStops(init, i);
      assert i >= 0 ==> init[..i] == s[..i];
      assert Zeros(|s| - i - 2) + "0" == Zeros(|s| - i - 1);
    }
  }

  /** The carry loop over a byte array. */
  method AddOne(digits: string) returns (r: string)
    requires AllDigits(digits)
    ensures r == Increment(digits)
  {
    var n := |digits|;
    var b := new char[n](i requires 0 <= i < n => digits[i]);
    var carry := true;
    var i := n - 1;
    while i >= 0 && carry
      invariant -1 <= i < n
      invariant !carry ==> i + 1 < n && digits[i + 1] != '9' && b[i + 1] == digits[i + 1] + 1 as char
      invariant forall k :: 0 <= k <= i ==> b[k] == digits[k]
      invariant forall k :: (if carry then i else i + 1) < k < n ==> digits[k] == '9' && b[k] == '0'
    {
      if b[i] == '9' {
        b[i] := '0';
      } else {
        b[i] := b[i] + 1 as char;
        carry := false;
      }
      i := i - 1;
    }
    r := b[..];
    ghost var stop := if carry then -1 else i + 1;
    CarryStops(digits, stop);
    if carry {
      r := "1" + r;
    }
  }

  function Max(a: int, b: int): (m: int) {
    if a < b then b else a
  }

  /** The least clock a write of `f` may take before the observed state is considered. */
  ghost function OwnClock(f: FileMeta): int
    requires ValidClock(f)
  {
    if f.bigClock != "" then DecimalValue(f.bigClock)
    else Max(1, Max(f.clock as int, f.modTime as int))
  }

  ghost function AdvancedValue(f: FileMeta, previous: Option<FileMeta>): int
    requires ValidClock(f) && (previous.Some? ==> ValidClock(previous.value))
  {
    if previous.None? then OwnClock(f) else Max(OwnClock(f), 1 + ClockValue(previous.value))
  }

  /** Raises the clock of `f` above `previous`. The value is exact for every pair of
      clocks: no int64 overflow, no lost carry, and the result is again canonical. */
  method AdvanceClock(f: FileMeta, previous: Option<FileMeta>) returns (r: FileMeta)
    requires ValidClock(f)
    requires previous.Some? ==> ValidClock(previous.value)
    ensures r == f.(clock := r.clock, bigClock := r.bigClock)
    ensures ValidClock(r) && r.StateClock() == r.clock
    ensures ClockValue(r) == AdvancedValue(f, previous)
    ensures previous.Some? ==> CompareClock(r, previous.value) > 0
  {
    r := f;
    if r.bigClock == "" {
      var c := if r.clock < r.modTime then r.modTime else r.clock;
      r := r.(clock := if c < 1 then 1 else c);
    }
    if previous.None? {
      return;
    }
    var p := previous.value;
    CompareClockNumeric(r, p);
    if CompareClock(r, p) > 0 {
      return;
    }
    if p.bigClock == "" && p.StateClock() < MAX_INT64 {
      r := r.(clock := p.StateClock() + 1, bigClock := "");
    } else {
      var digits := p.bigClock;
      if digits == "" {
        digits := ClockDigits(p.StateClock());
      }
      var next := AddOne(digits);
      IncrementAddsOne(digits);
      r := r.(clock := MAX_INT64, bigClock := next);
    }
    CompareClockNumeric(r, p);
  }
}
