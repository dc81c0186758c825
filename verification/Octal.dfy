/** The numeric readers of sys/tarfs.c: two ways from an octal size field to a number, and when
    they agree. */
module Octal {
  import opened Utils

  const U32 := 0x1_0000_0000
  const U64 := 0x1_0000_0000_0000_0000

  /** A byte as a C `char`, which is signed. */
  function Signed(c: char): int {
    var b := c as int % 256;
    if b < 128 then b else b - 256
  }

  function Digit(c: char): int { Signed(c) - '0' as int }

  predicate IsDigit(c: char) { '0' <= c <= '9' }

  predicate IsOctal(s: string) {
    forall i :: 0 <= i < |s| ==> '0' <= s[i] <= '7'
  }

  /** `s` read in base `b`, its characters taken as distances from '0'. */
  function Value(s: string, b: nat): int {
    if s == [] then 0 else Value(s[..|s| - 1], b) * b + Digit(s[|s| - 1])
  }

  function Pow8(n: nat): nat { if n == 0 then 1 else 8 * Pow8(n - 1) }

  // ---- getSize ---------------------------------------------------------------------------

  lemma ValueFrontStep(d: int, p: nat, rest: int, last: int)
    ensures (d * p + rest) * 8 + last == d * (8 * p) + (rest * 8 + last)
  {
  }

  lemma {:induction false} ValueFront(s: string)
    requires s != []
    ensures Value(s, 8) == Digit(s[0]) * Pow8(|s| - 1) + Value(s[1..], 8)
  {
    if |s| > 1 {
      var init := s[..|s| - 1];
      ValueFront(init);
      var p, rest, last := Pow8(|s| - 2), Value(init[1..], 8), Digit(s[|s| - 1]);
      assert init[1..] == s[1..][..|s[1..]| - 1];
      assert Value(s[1..], 8) == rest * 8 + last;
      assert Value(s, 8) == Value(init, 8) * 8 + last;
      assert Pow8(|s| - 1) == 8 * p;
      hide Value, Pow8, Digit;
      ValueFrontStep(Digit(s[0]), p, rest, last);
    }
  }

  lemma AddMod32(x: int, y: int)
    ensures (x % U32 + y) % U32 == (x + y) % U32
  {
  }

  lemma AddMod64(x: int, y: int)
    ensures (x % U64 + y) % U64 == (x + y) % U64
  {
  }

  /** getSize: eleven characters, least significant last, in `unsigned int` arithmetic. */
  method GetSize(input: string) returns (size: nat)
    requires |input| >= 11
    ensures size == Value(input[..11], 8) % U32
    ensures forall n: nat :: n < 8589934592 && input[..11] == OctalField(n, 11) ==> size == n % 0x1_0000_0000
  {
    size := 0;
    var k, count := 11, 1;
    ghost var s := input[..11];
    assert s[11..] == [];
    while k > 0
      invariant 0 <= k <= 11 && count == Pow8(11 - k) % U32
      invariant size == Value(s[k..], 8) % U32
    {
      ValueFront(s[k - 1..]);
      assert s[k - 1..][1..] == s[k..];
      PowersFit(11 - k);
      AddMod32(Value(s[k..], 8), Digit(s[k - 1]) * count);
      size := (size + Digit(input[k - 1]) * count) % U32;
      k := k - 1;
      count := count * 8 % U32;
    }
    assert s[0..] == s;
    forall n: nat | n < 8589934592 && s == OctalField(n, 11) ensures Value(s, 8) == n {
      FieldRead(n);
    }
  }

  lemma {:induction false} PowersGrow(n: nat, m: nat)
    requires n <= m
    ensures Pow8(n) <= Pow8(m)
    decreases m
  {
    if n < m { PowersGrow(n, m - 1); }
  }

  lemma PowersFit(n: nat)
    requires n <= 10
    ensures Pow8(n) < U32 && Pow8(n) % U32 == Pow8(n)
  {
    PowersGrow(n, 10);
    assert Pow8(10) == 0x4000_0000;
  }

  /** An all-zero header reads as a size of about 1.14 GiB: '0' is 48, and the sum wraps. */
  lemma ZeroHeaderSize(s: string)
    requires |s| == 11 && forall i :: 0 <= i < 11 ==> s[i] == '\0'
    ensures Value(s, 8) % U32 == 1227133520
  {
    RepeatedValue(s, '\0', 11);
    assert s[..11] == s;
    Pow8Eleven();
    assert Value(s, 8) == -58902408624;
  }

  /** And one of 0xFF bytes, each of them -1 as a C `char`, as a size of 7. */
  lemma ErasedHeaderSize(s: string)
    requires |s| == 11 && forall i :: 0 <= i < 11 ==> s[i] == '\U{FF}'
    ensures Value(s, 8) % U32 == 7
  {
    RepeatedValue(s, '\U{FF}', 11);
    assert s[..11] == s;
    Pow8Eleven();
    assert Value(s, 8) == -60129542137;
  }

  lemma {:induction false} RepeatedValue(s: string, c: char, n: nat)
    requires n <= |s| && forall i :: 0 <= i < |s| ==> s[i] == c
    ensures 7 * Value(s[..n], 8) == Digit(c) * (Pow8(n) - 1)
  {
    if n > 0 {
      RepeatedValue(s, c, n - 1);
      assert s[..n][..n - 1] == s[..n - 1];
      var d, p := Digit(c), Pow8(n - 1);
      assert Value(s[..n], 8) == Value(s[..n - 1], 8) * 8 + d;
      hide Digit, Value, Pow8;
      assert 8 * (d * (p - 1)) + 7 * d == d * (8 * p - 1);
    }
  }

  // ---- stoi and octalToDecimal -----------------------------------------------------------

  /** How many digits follow position `i`. */
  function DigitsEnd(s: string, i: nat): (r: nat)
    requires i <= |s|
    ensures i <= r <= |s| && (r < |s| ==> !IsDigit(s[r])) && forall j :: i <= j < r ==> IsDigit(s[j])
    decreases |s| - i
  {
    if i < |s| && IsDigit(s[i]) then DigitsEnd(s, i + 1) else i
  }

  /** stoi: the digits up to the first other character, read in base ten in 64 bits. */
  method Stoi(s: string) returns (i: nat)
    requires DigitsEnd(s, 0) < |s|
    ensures i == Value(s[..DigitsEnd(s, 0)], 10) % U64
    ensures forall n: nat :: StartsWithNumber(s, n) ==> i == n % 0x1_0000_0000_0000_0000
  {
    i := 0;
    var p := 0;
    while IsDigit(s[p])
      invariant p <= DigitsEnd(s, 0) == DigitsEnd(s, p)
      invariant i == Value(s[..p], 10) % U64
      decreases |s| - p
    {
      assert s[..p + 1][..p] == s[..p];
      TimesTen(Value(s[..p], 10), Digit(s[p]));
      i := (i * 10 + Digit(s[p])) % U64;
      p := p + 1;
    }
    forall n: nat | StartsWithNumber(s, n) ensures Value(s[..p], 10) == n {
      NumberRead(s, n);
    }
  }

  lemma TimesTen(x: int, d: int)
    ensures (x % U64 * 10 + d) % U64 == (x * 10 + d) % U64
  {
  }

  /** C's remainder by ten, with the sign of the dividend. */
  function Rem10(x: int): int { if x >= 0 then x % 10 else -(-x % 10) }

  /** What octalToDecimal sums up: the digits as seen through `(int)n % 10`, in base eight. */
  function Reading(n: nat): int {
    if n == 0 then 0 else Rem10(Int32(n)) + 8 * Reading(n / 10)
  }

  /** What it is meant to: the decimal digits of `n` read in base eight. */
  function Octal(n: nat): nat {
    if n == 0 then 0 else n % 10 + 8 * Octal(n / 10)
  }

  /** The loop of octalToDecimal has `d` and has `n` to go, at weight `p`. */
  ghost predicate Underway(n0: nat, n: nat, d: int, p: nat) {
    d + p * Reading(n) == Reading(n0) && p * n <= n0
  }

  lemma UnderwayNext(n0: nat, n: nat, d: int, p: nat)
    requires Underway(n0, n, d, p) && n > 0
    ensures p <= n0 && Underway(n0, n / 10, d + Rem10(Int32(n)) * p, 8 * p)
  {
    Scaled(p, n);
    LoopReading(d, p, n);
  }

  lemma UnderwayStarts(n0: nat)
    ensures Underway(n0, n0, 0, 1)
  {
    hide Reading;
  }

  lemma UnderwayEnds(n0: nat, d: int, p: nat)
    requires Underway(n0, 0, d, p)
    ensures d == Reading(n0)
  {
    ReadingZero();
    hide Reading;
    assert p * Reading(0) == 0;
  }

  lemma ReadingZero()
    ensures Reading(0) == 0
  {
  }

  /** octalToDecimal, in 64-bit arithmetic (a negative remainder wraps). */
  method OctalToDecimal(n0: nat) returns (decimal: nat)
    requires n0 < U64
    ensures decimal == Reading(n0) % U64
  {
    hide Reading, Rem10, Int32, Underway;
    var n, i, pow := n0, 0, 1;
    decimal := 0;
    ghost var d: int, p: nat := 0, 1;
    UnderwayStarts(n0);
    while n != 0
      invariant 0 <= n && i >= 0 && p == (if i > 0 then 8 * pow else pow) && (i == 0 ==> pow == 1)
      invariant Underway(n0, n, d, p) && decimal == d % U64
      decreases n
    {
      UnderwayNext(n0, n, d, p);
      var rem := Rem10(Int32(n));
      n := n / 10;
      if i > 0 {
        pow := pow * 8 % U64;
      }
      assert pow == p;
      var term := rem * pow;
      AddMod64(d, term);
      decimal := (decimal + term) % U64;
      d, p := d + term, 8 * p;
      i := i + 1;
    }
    UnderwayEnds(n0, d, p);
  }

  lemma Scaled(p: nat, n: nat)
    ensures 8 * p * (n / 10) <= p * n
    ensures n > 0 ==> p <= p * n
  {
    assert p * n == p * (8 * (n / 10) + (n - 8 * (n / 10)));
    assert p * n == p * (8 * (n / 10)) + p * (n - 8 * (n / 10));
    assert n - 8 * (n / 10) >= 0;
    if n > 0 { assert p * n == p + p * (n - 1); }
  }

  lemma Distribute(d: int, p: int, r: int, rest: int)
    ensures d + p * (r + 8 * rest) == (d + r * p) + (8 * p) * rest
  {
    assert p * (r + 8 * rest) == p * r + p * (8 * rest);
    assert p * (8 * rest) == (8 * p) * rest;
  }

  lemma LoopReading(d: int, p: nat, n: nat)
    requires n > 0
    ensures d + p * Reading(n) == (d + Rem10(Int32(n)) * p) + (8 * p) * Reading(n / 10)
  {
    var r, rest := Rem10(Int32(n)), Reading(n / 10);
    assert Reading(n) == r + 8 * rest;
    hide Rem10, Int32, Reading;
    Distribute(d, p, r, rest);
  }

  // ---- When the two agree ----------------------------------------------------------------

  /** The decimal digits of the value of a digit string are its characters. */
  lemma {:induction false} OctalOfDecimal(s: string)
    requires IsOctal(s)
    ensures 0 <= Value(s, 10) && Octal(Value(s, 10)) == Value(s, 8) && OctalDigits(Value(s, 10))
  {
    hide Digit;
    if s != [] {
      OctalOfDecimal(s[..|s| - 1]);
      OctalDigit(s[|s| - 1]);
    }
  }

  lemma OctalDigit(c: char)
    requires '0' <= c <= '7'
    ensures 0 <= Digit(c) <= 7
  {
  }

  predicate OctalDigits(n: nat) {
    n == 0 || (n % 10 <= 7 && OctalDigits(n / 10))
  }

  /** How far one digit is off when seen through `(int)n % 10`. */
  function Error(n: nat): int { Rem10(Int32(n)) - n % 10 }

  lemma {:induction false} ReadingError(n: nat)
    ensures Reading(n) - Octal(n) == if n == 0 then 0 else Error(n) + 8 * (Reading(n / 10) - Octal(n / 10))
  {
  }

  lemma ErrorInWindow(n: nat, c: nat)
    requires c * U32 - 0x8000_0000 <= n < c * U32 + 0x8000_0000
    ensures Error(n) == if n >= c * U32 then (n - c * U32) % 10 - n % 10 else -((c * U32 - n) % 10) - n % 10
  {
  }

  lemma {:induction false} SmallReading(n: nat)
    requires n < 0x8000_0000
    ensures Reading(n) == Octal(n)
  {
    if n > 0 {
      ReadingError(n);
      ErrorInWindow(n, 0);
      hide Error, Reading, Octal;
      SmallReading(n / 10);
    }
  }

  /** Past 2^31 the last digit is misread, except for a 0 in one window. */
  predicate Window(n: nat) {
    n % 10 == 0 && 19327352832 <= n < 21474836480
  }

  lemma LastDigit(x: int, tens: int, r: int)
    requires x == 10 * tens + r
    ensures x % 10 == r % 10
  {
  }

  lemma MediumError(n: nat)
    requires 0x8000_0000 <= n < 21474836480 && n % 10 <= 7
    ensures Error(n) == 0 <==> Window(n)
  {
    var c, q, d := (n + 0x8000_0000) / U32, n / 10, n % 10;
    ErrorInWindow(n, c);
    LastDigit(c * U32 - n, 429496729 * c - q, 6 * c - d);
    LastDigit(n - c * U32, q - 429496729 * c, d - 6 * c);
    assert 1 <= c <= 5;
    hide Error;
    SmallRemainders(c, d);
  }

  /** The last digit of 2^32 is 6. */
  lemma SmallRemainders(c: nat, d: nat)
    requires 1 <= c <= 5 && d <= 7
    ensures (6 * c - d) % 10 + d == 0 <==> c == 5 && d == 0
    ensures (d - 6 * c) % 10 == d <==> c == 5
  {
    if c == 1 {
    } else if c == 2 {
    } else if c == 3 {
    } else if c == 4 {
    } else {
    }
  }

  /** The errors of the second digit. */
  lemma CarryError(m: nat)
    requires 0x8000_0000 <= m <= 7777777777 && m % 10 <= 7
    ensures Error(m) in {-16, -12, -6, -2, 4}
  {
    var q, d := m / 10, m % 10;
    if m < U32 + 0x8000_0000 {
      ErrorInWindow(m, 1);
      LastDigit(U32 - m, 429496729 - q, 6 - d);
      LastDigit(m - U32, q - 429496729, d - 6);
    } else {
      ErrorInWindow(m, 2);
      LastDigit(2 * U32 - m, 858993459 - q, 2 - d);
    }
    hide Error;
  }

  lemma ErrorBounds(n: nat)
    ensures -18 <= Error(n) <= 9
  {
  }

  lemma LargeError(n: nat)
    requires 21474836480 <= n <= 77777777777 && n / 10 % 10 <= 7
    ensures Error(n) + 8 * Error(n / 10) != 0
  {
    ErrorBounds(n);
    CarryError(n / 10);
    hide Error;
  }

  lemma {:induction false} OctalAtMost(n: nat)
    ensures Octal(n) <= n
  {
    if n > 0 { OctalAtMost(n / 10); }
  }

  /** How far octalToDecimal is off. */
  lemma Difference(n: nat)
    requires OctalDigits(n) && n <= 77777777777
    ensures Reading(n) - Octal(n) ==
      if n < 0x8000_0000 then 0 else if n < 21474836480 then Error(n) else Error(n) + 8 * Error(n / 10)
  {
    hide Error, Reading, Octal;
    if n < 0x8000_0000 {
      SmallReading(n);
    } else {
      ReadingError(n);
      if n < 21474836480 {
        SmallReading(n / 10);
      } else {
        ReadingError(n / 10);
        SmallReading(n / 10 / 10);
      }
    }
  }

  lemma NearMod(x: int, y: nat)
    requires -1000 <= x - y <= 1000 && y < 0x1_0000_0000_0000
    ensures x % U64 == y <==> x == y
  {
  }

  /** For eleven octal digits, octalToDecimal is right exactly when their decimal reading fits an
      `int`, or ends in 0 and lies in the window where the wrapped last digit comes out as 0 too. */
  lemma OctalToDecimalRightIff(n: nat)
    requires OctalDigits(n) && n <= 77777777777
    ensures Reading(n) % U64 == Octal(n) <==> n < 0x8000_0000 || Window(n)
  {
    assert n > 0 ==> n % 10 <= 7 && OctalDigits(n / 10);
    assert n >= 10 ==> n / 10 % 10 <= 7;
    OctalAtMost(n);
    Difference(n);
    ErrorBounds(n);
    ErrorBounds(n / 10);
    if n >= 21474836480 {
      LargeError(n);
    } else if n >= 0x8000_0000 {
      MediumError(n);
    }
    hide Error, Reading, Octal, OctalDigits;
    NearMod(Reading(n), Octal(n));
  }

  /** The two readers agree on every size field of eleven octal digits whose decimal reading fits
      an `int`: both give the octal value. */
  lemma ReadersAgree(s: string)
    requires |s| == 11 && IsOctal(s) && Value(s, 10) < 0x8000_0000
    ensures 0 <= Value(s, 8) <= Value(s, 10)
    ensures Value(s, 8) % U32 == Value(s, 8)
    ensures Reading(Value(s, 10) % U64) % U64 == Value(s, 8)
  {
    OctalOfDecimal(s);
    hide Value, Octal, Reading, IsOctal, OctalDigits;
    var v := Value(s, 10);
    OctalAtMost(v);
    SmallReading(v);
    SmallMod(v);
    SmallMod(Octal(v));
  }

  lemma SmallMod(x: nat)
    requires x < 0x8000_0000
    ensures x % U32 == x && x % U64 == x
  {
  }

  // ---- Numbers written down ----------------------------------------------------------------

  /** `n` in octal, in `width` characters, as a tar writer fills in a field. */
  function OctalField(n: nat, width: nat): (s: string)
    ensures |s| == width
  {
    if width == 0 then "" else OctalField(n / 8, width - 1) + ["01234567"[n % 8]]
  }

  /** `n` in decimal, without leading zeros. */
  function Decimal(n: nat): string {
    if n < 10 then ["0123456789"[n]] else Decimal(n / 10) + ["0123456789"[n % 10]]
  }

  /** The octal digits of `n`, read in base ten. */
  function OctalAsDecimal(n: nat): nat {
    if n == 0 then 0 else 10 * OctalAsDecimal(n / 8) + n % 8
  }

  lemma DivDiv(n: nat, p: nat)
    requires p > 0
    ensures n / 8 / p == n / (8 * p)
  {
    var q, r := n / 8 / p, n / 8 % p;
    assert n / 8 == p * q + r;
    assert n == (8 * p) * q + (8 * r + n % 8);
    DivIs(n, 8 * p, q, 8 * r + n % 8);
  }

  lemma DivIs(n: nat, d: nat, q: nat, r: nat)
    requires n == d * q + r && r < d
    ensures n / d == q
  {
    var x := n / d;
    assert n == d * x + n % d;
    AtLeast(d, x - q);
    AtLeast(d, q - x);
  }

  lemma AtLeast(d: nat, k: int)
    ensures k >= 1 ==> d * k >= d
  {
  }

  lemma {:induction false} Pow8Positive(k: nat)
    ensures Pow8(k) > 0
  {
    if k > 0 { Pow8Positive(k - 1); }
  }

  /** The character at each place of an octal field. */
  lemma {:induction false} OctalFieldAt(n: nat, width: nat, k: nat)
    requires k < width
    ensures Pow8(width - 1 - k) > 0
    ensures OctalField(n, width)[k] == "01234567"[n / Pow8(width - 1 - k) % 8]
  {
    Pow8Positive(width - 1 - k);
    if k < width - 1 {
      OctalFieldAt(n / 8, width - 1, k);
      DivDiv(n, Pow8(width - 2 - k));
    }
  }

  lemma DigitOf(d: nat)
    requires d < 10
    ensures Digit("0123456789"[d]) == d && '0' <= "0123456789"[d] <= '9'
    ensures d < 8 ==> "01234567"[d] == "0123456789"[d] <= '7'
  {
    if d < 5 {
      if d == 0 {} else if d == 1 {} else if d == 2 {} else if d == 3 {} else {}
    } else {
      if d == 5 {} else if d == 6 {} else if d == 7 {} else if d == 8 {} else {}
    }
  }

  lemma ValueLast(s: string, c: char, b: nat)
    ensures Value(s + [c], b) == Value(s, b) * b + Digit(c)
  {
    assert (s + [c])[..|s + [c]| - 1] == s;
  }

  /** An octal field that is wide enough, read in base eight, is the number written. */
  lemma {:induction false} OctalFieldValue(n: nat, width: nat)
    requires n < Pow8(width)
    ensures Value(OctalField(n, width), 8) == n && Value(OctalField(n, width), 10) == OctalAsDecimal(n)
    ensures IsOctal(OctalField(n, width))
  {
    hide Value, Digit, OctalAsDecimal;
    OneDigit(n);
    if width == 0 {
      NoValue();
    } else {
      OctalFieldValue(n / 8, width - 1);
      DigitOf(n % 8);
      ValueLast(OctalField(n / 8, width - 1), "01234567"[n % 8], 8);
      ValueLast(OctalField(n / 8, width - 1), "01234567"[n % 8], 10);
    }
  }

  lemma {:induction false} DecimalValue(n: nat)
    ensures Value(Decimal(n), 10) == n && Decimal(n) != ""
    ensures forall k :: 0 <= k < |Decimal(n)| ==> '0' <= Decimal(n)[k] <= '9'
  {
    hide Value, Digit;
    DigitOf(n % 10);
    var init := if n < 10 then "" else Decimal(n / 10);
    assert Decimal(n) == init + ["0123456789"[n % 10]];
    ValueLast(init, "0123456789"[n % 10], 10);
    if n < 10 {
      NoValue();
    } else {
      DecimalValue(n / 10);
    }
  }

  lemma NoValue()
    ensures Value("", 8) == Value("", 10) == 0
  {
  }

  lemma Pow8Eleven()
    ensures Pow8(11) == 8589934592
  {
    assert Pow8(3) == 512;
    assert Pow8(7) == 4096 * Pow8(3);
    assert Pow8(11) == 4096 * Pow8(7);
  }

  lemma FieldRead(n: nat)
    requires n < 8589934592
    ensures Value(OctalField(n, 11), 8) == n
  {
    Pow8Eleven();
    OctalFieldValue(n, 11);
  }

  /** The digits at the front of `s` are those of `n`. */
  predicate StartsWithNumber(s: string, n: nat) {
    && |Decimal(n)| < |s| && s[..|Decimal(n)|] == Decimal(n)
    && !('0' <= s[|Decimal(n)|] <= '9')
  }

  lemma {:induction false} DigitsEndIs(s: string, i: nat, e: nat)
    requires i <= e < |s| && !('0' <= s[e] <= '9') && forall j :: i <= j < e ==> '0' <= s[j] <= '9'
    ensures DigitsEnd(s, i) == e
    decreases e - i
  {
    if i < e { DigitsEndIs(s, i + 1, e); }
  }

  lemma NumberRead(s: string, n: nat)
    requires StartsWithNumber(s, n)
    ensures DigitsEnd(s, 0) == |Decimal(n)| && Value(s[..DigitsEnd(s, 0)], 10) == n
  {
    DecimalValue(n);
    forall j | 0 <= j < |Decimal(n)| ensures '0' <= s[j] <= '9' {
      assert s[j] == Decimal(n)[j];
    }
    DigitsEndIs(s, 0, |Decimal(n)|);
  }

  lemma {:induction false} OctalAsDecimalDigits(n: nat)
    ensures OctalDigits(OctalAsDecimal(n)) && Octal(OctalAsDecimal(n)) == n && OctalAsDecimal(n) % 10 == n % 8
  {
    if n > 0 {
      OctalAsDecimalDigits(n / 8);
    }
  }

  lemma {:induction false} OctalAsDecimalGrows(m: nat, n: nat)
    requires m < n
    ensures OctalAsDecimal(m) < OctalAsDecimal(n)
  {
    if m / 8 < n / 8 { OctalAsDecimalGrows(m / 8, n / 8); }
  }

  lemma OneDigit(n: nat)
    ensures OctalAsDecimal(n) == 10 * OctalAsDecimal(n / 8) + n % 8
  {
  }

  lemma FiveDigits(n: nat)
    ensures 0 <= OctalAsDecimal(n) - 100000 * OctalAsDecimal(n / 32768) <= 77777
  {
    hide OctalAsDecimal;
    OneDigit(n);
    OneDigit(n / 8);
    OneDigit(n / 8 / 8);
    OneDigit(n / 8 / 8 / 8);
    OneDigit(n / 8 / 8 / 8 / 8);
    assert n / 8 / 8 / 8 / 8 / 8 == n / 32768;
  }

  lemma {:induction false} OctalAsDecimalMonotone(m: nat, n: nat)
    requires m <= n
    ensures OctalAsDecimal(m) <= OctalAsDecimal(n)
  {
    if m < n { OctalAsDecimalGrows(m, n); }
  }

  /** Five digits up, a bound on a number is one on its digits. */
  lemma BelowIff(n: nat, m: nat, limit: nat)
    requires m > 0 && 100000 * OctalAsDecimal(m - 1) + 77777 < limit <= 100000 * OctalAsDecimal(m)
    ensures n < 32768 * m <==> OctalAsDecimal(n) < limit
  {
    FiveDigits(n);
    if n / 32768 <= m - 1 {
      OctalAsDecimalMonotone(n / 32768, m - 1);
    } else {
      OctalAsDecimalMonotone(m, n / 32768);
    }
    hide OctalAsDecimal;
  }

  /** The sizes that octalToDecimal(stoi(..)) reads back from a header. */
  predicate Readable(n: nat) {
    n < 295600128 || (n % 8 == 0 && 2147483648 <= n < 2364801024)
  }

  lemma Bounds(n: nat)
    ensures n < 295600128 <==> OctalAsDecimal(n) < 0x8000_0000
    ensures n < 2147483648 <==> OctalAsDecimal(n) < 19327352832
    ensures n < 2364801024 <==> OctalAsDecimal(n) < 21474836480
    ensures n < 8589934592 <==> OctalAsDecimal(n) <= 77777777777
  {
    hide OctalAsDecimal;
    HighDigits();
    BelowIff(n, 9021, 0x8000_0000);
    BelowIff(n, 65536, 19327352832);
    BelowIff(n, 72168, 21474836480);
    BelowIff(n, 262144, 77777777778);
  }

  lemma HighDigits()
    ensures OctalAsDecimal(9020) == 21474 && OctalAsDecimal(9021) == 21475
    ensures OctalAsDecimal(65535) == 177777 && OctalAsDecimal(65536) == 200000
    ensures OctalAsDecimal(72167) == 214747 && OctalAsDecimal(72168) == 214750
    ensures OctalAsDecimal(262143) == 777777 && OctalAsDecimal(262144) == 1000000
  {
    hide OctalAsDecimal;
    SmallDigits();
    ThreeDigits(17, 316);
    ThreeDigits(17, 317);
    ThreeDigits(127, 511);
    ThreeDigits(128, 0);
    ThreeDigits(140, 487);
    ThreeDigits(140, 488);
    ThreeDigits(511, 511);
    ThreeDigits(512, 0);
  }

  lemma ThreeDigits(q: nat, r: nat)
    requires r < 512
    ensures OctalAsDecimal(512 * q + r) == 1000 * OctalAsDecimal(q) + OctalAsDecimal(r)
  {
    hide OctalAsDecimal;
    var c, b, a := r % 8, r / 8 % 8, r / 8 / 8;
    OneMore(0, 0);
    OneMore(0, a);
    OneMore(a, b);
    OneMore(8 * a + b, c);
    OneMore(q, a);
    OneMore(8 * q + a, b);
    OneMore(8 * (8 * q + a) + b, c);
  }

  lemma OneMore(q: nat, d: nat)
    requires d < 8
    ensures OctalAsDecimal(8 * q + d) == 10 * OctalAsDecimal(q) + d
  {
    hide OctalAsDecimal;
    OneDigit(8 * q + d);
  }

  lemma SmallDigits()
    ensures OctalAsDecimal(17) == 21 && OctalAsDecimal(127) == 177 && OctalAsDecimal(128) == 200
    ensures OctalAsDecimal(140) == 214 && OctalAsDecimal(511) == 777 && OctalAsDecimal(512) == 1000
    ensures OctalAsDecimal(316) == 474 && OctalAsDecimal(317) == 475
    ensures OctalAsDecimal(487) == 747 && OctalAsDecimal(488) == 750 && OctalAsDecimal(0) == 0
  {
  }

  /** Exactly which sizes below 8^11 come back through stoi and octalToDecimal: those below
      0o2147500000, about 282 MiB, and the multiples of eight in one window above 2 GiB. */
  lemma WrittenSizeReadIff(n: nat)
    requires n < 8589934592
    ensures 0 <= Value(OctalField(n, 11), 10)
    ensures Reading(Value(OctalField(n, 11), 10) % U64) % U64 == n <==> Readable(n)
  {
    hide Value, Reading, Octal, OctalAsDecimal, OctalDigits, OctalField, Pow8;
    Pow8Eleven();
    OctalFieldValue(n, 11);
    OctalAsDecimalDigits(n);
    Bounds(n);
    OctalToDecimalRightIff(OctalAsDecimal(n));
  }
}
