/** fmt's fast integer formatting: digit counting from the bit length, and digits written from
    the right two at a time out of a table, both against schoolbook decimal notation. */
module DecimalFormat {

  import opened Powers

  // ----- decimal notation

  function Digit(d: nat): char
    requires d < 10
  {
    ('0' as int + d) as char
  }

  function Decimal(n: nat): string {
    if n < 10 then [Digit(n)] else Decimal(n / 10) + [Digit(n % 10)]
  }

  function ReadBack(s: string): int {
    if s == [] then 0 else ReadBack(s[..|s| - 1]) * 10 + (s[|s| - 1] as int - '0' as int)
  }

  function Pow10(k: nat): nat {
    if k == 0 then 1 else 10 * Pow10(k - 1)
  }

  lemma {:induction false} DecimalReadsBack(n: nat)
    ensures ReadBack(Decimal(n)) == n
    ensures forall i :: 0 <= i < |Decimal(n)| ==> '0' <= Decimal(n)[i] <= '9'
  {
    if n >= 10 {
      DecimalReadsBack(n / 10);
      assert Decimal(n)[..|Decimal(n)| - 1] == Decimal(n / 10);
    } else {
      assert Decimal(n)[..0] == "";
    }
  }

  /** The number of digits is the position of n among the powers of ten. */
  lemma {:induction false} DecimalLength(n: nat)
    ensures |Decimal(n)| >= 1 && n < Pow10(|Decimal(n)|)
    ensures |Decimal(n)| > 1 ==> Pow10(|Decimal(n)| - 1) <= n
  {
    if n >= 10 {
      DecimalLength(n / 10);
    }
  }

  lemma {:induction false} Pow10Monotone(a: nat, b: nat)
    requires a <= b
    ensures 1 <= Pow10(a) <= Pow10(b)
    decreases b
  {
    if a < b {
      Pow10Monotone(a, b - 1);
    } else if a > 0 {
      Pow10Monotone(a - 1, b - 1);
    }
  }

  lemma LengthIs(n: nat, k: nat)
    requires k >= 1 && n < Pow10(k) && (k > 1 ==> Pow10(k - 1) <= n)
    ensures |Decimal(n)| == k
  {
    DecimalLength(n);
    var len := |Decimal(n)|;
    if len < k {
      Pow10Monotone(len, k - 1);
    } else if k < len {
      Pow10Monotone(k, len - 1);
    }
  }

  lemma DecimalInjective(a: nat, b: nat)
    requires Decimal(a) == Decimal(b)
    ensures a == b
  {
    DecimalReadsBack(a);
    DecimalReadsBack(b);
  }

  // ----- digit counting

  const WORD32: nat := 0x1_0000_0000
  const WORD64: nat := 0x1_0000_0000_0000_0000

  function BitLength(n: nat): nat {
    if n == 0 then 0 else 1 + BitLength(n / 2)
  }

  /** Leading zero bits of a nonzero word of the given width. */
  function Clz(width: nat, n: nat): int {
    width - BitLength(n)
  }

  /** n | 1 */
  function OrOne(n: nat): nat {
    if n % 2 == 0 then n + 1 else n
  }

  const POWERS_OF_10_32: seq<nat> := [
    0, 10, 100, 1000, 10000, 100000, 1000000, 10000000, 100000000, 1000000000]

  const POWERS_OF_10_64: seq<nat> := [
    0, 10, 100, 1000, 10000, 100000, 1000000, 10000000, 100000000, 1000000000,
    10000000000, 100000000000, 1000000000000, 10000000000000, 100000000000000,
    1000000000000000, 10000000000000000, 100000000000000000, 1000000000000000000,
    10000000000000000000]

  lemma {:induction false} BitLengthBounds(n: nat)
    requires n > 0
    ensures BitLength(n) >= 1 && Pow2(BitLength(n) - 1) <= n < Pow2(BitLength(n))
  {
    if n > 1 {
      BitLengthBounds(n / 2);
    }
  }

  lemma {:induction false} Pow2Monotone(a: nat, b: nat)
    requires a <= b
    ensures 1 <= Pow2(a) <= Pow2(b)
    decreases b
  {
    if a < b {
      Pow2Monotone(a, b - 1);
    } else if a > 0 {
      Pow2Monotone(a - 1, b - 1);
    }
  }

  /** The estimate t of the digit count from the bit length b is off by at most one. */
  ghost predicate EstimateBrackets(b: nat, t: nat) {
    b >= 1 && Pow2(b) <= Pow10(t + 1) && (t >= 1 ==> Pow10(t - 1) <= Pow2(b - 1))
  }

  /** t == b * 1233 >> 12 */
  ghost predicate IsEstimate(b: nat, t: nat) {
    4096 * t <= b * 1233 < 4096 * (t + 1)
  }

  /** t is constant over a short run lo..hi of bit lengths, so it is enough to look at its ends. */
  lemma EstimateRun(b: nat, t: nat, lo: nat, hi: nat)
    requires 1 <= lo <= b <= hi
    requires Pow2(hi) <= Pow10(t + 1) && (t >= 1 ==> Pow10(t - 1) <= Pow2(lo - 1))
    ensures EstimateBrackets(b, t)
  {
    Pow2Monotone(b, hi);
    Pow2Monotone(lo - 1, b - 1);
  }

  lemma PowersOfTen()
    ensures POWERS_OF_10_64[0] == 0 && |POWERS_OF_10_64| == 20
    ensures forall t :: 1 <= t < 20 ==> POWERS_OF_10_64[t] == Pow10(t)
    ensures Pow10(20) == 100000000000000000000
  {
    var p := POWERS_OF_10_64;
    assert p[1] == 10 == Pow10(1);
    assert p[2] == 10 * p[1] == Pow10(2);
    assert p[3] == 10 * p[2] == Pow10(3);
    assert p[4] == 10 * p[3] == Pow10(4);
    assert p[5] == 10 * p[4] == Pow10(5);
    assert p[6] == 10 * p[5] == Pow10(6);
    assert p[7] == 10 * p[6] == Pow10(7);
    assert p[8] == 10 * p[7] == Pow10(8);
    assert p[9] == 10 * p[8] == Pow10(9);
    assert p[10] == 10 * p[9] == Pow10(10);
    assert p[11] == 10 * p[10] == Pow10(11);
    assert p[12] == 10 * p[11] == Pow10(12);
    assert p[13] == 10 * p[12] == Pow10(13);
    assert p[14] == 10 * p[13] == Pow10(14);
    assert p[15] == 10 * p[14] == Pow10(15);
    assert p[16] == 10 * p[15] == Pow10(16);
    assert p[17] == 10 * p[16] == Pow10(17);
    assert p[18] == 10 * p[17] == Pow10(18);
    assert p[19] == 10 * p[18] == Pow10(19);
    assert 10 * p[19] == Pow10(20);
  }

  lemma PowersOfTen32()
    ensures POWERS_OF_10_32[0] == 0 && |POWERS_OF_10_32| == 10
    ensures forall t :: 1 <= t < 10 ==> POWERS_OF_10_32[t] == Pow10(t)
  {
    PowersOfTen();
    hide Pow10;
    assert forall t :: 0 <= t < 10 ==> POWERS_OF_10_32[t] == POWERS_OF_10_64[t];
  }

  /** Powers of two at the ends of the runs below. */
  lemma PowersOfTwo()
    ensures Pow2(32) == WORD32 && Pow2(64) == WORD64
    ensures Pow2(3) == 0x8 && Pow2(6) == 0x40 && Pow2(9) == 0x200
    ensures Pow2(13) == 0x2000 && Pow2(16) == 0x10000 && Pow2(19) == 0x80000
    ensures Pow2(23) == 0x800000 && Pow2(26) == 0x4000000 && Pow2(29) == 0x20000000
    ensures Pow2(33) == 0x200000000 && Pow2(36) == 0x1000000000 && Pow2(39) == 0x8000000000
    ensures Pow2(43) == 0x80000000000 && Pow2(46) == 0x400000000000 && Pow2(49) == 0x2000000000000
    ensures Pow2(53) == 0x20000000000000 && Pow2(56) == 0x100000000000000 && Pow2(59) == 0x800000000000000
    ensures Pow2(63) == 0x8000000000000000
  {
    assert Pow2(1) == 0x2 && Pow2(2) == 0x4;
    assert Pow2(3) == 0x8 && Pow2(4) == 0x10;
    assert Pow2(5) == 0x20 && Pow2(6) == 0x40;
    assert Pow2(7) == 0x80 && Pow2(8) == 0x100;
    assert Pow2(9) == 0x200 && Pow2(10) == 0x400;
    assert Pow2(11) == 0x800 && Pow2(12) == 0x1000;
    assert Pow2(13) == 0x2000 && Pow2(14) == 0x4000;
    assert Pow2(15) == 0x8000 && Pow2(16) == 0x10000;
    assert Pow2(17) == 0x20000 && Pow2(18) == 0x40000;
    assert Pow2(19) == 0x80000 && Pow2(20) == 0x100000;
    assert Pow2(21) == 0x200000 && Pow2(22) == 0x400000;
    assert Pow2(23) == 0x800000 && Pow2(24) == 0x1000000;
    assert Pow2(25) == 0x2000000 && Pow2(26) == 0x4000000;
    assert Pow2(27) == 0x8000000 && Pow2(28) == 0x10000000;
    assert Pow2(29) == 0x20000000 && Pow2(30) == 0x40000000;
    assert Pow2(31) == 0x80000000 && Pow2(32) == 0x100000000;
    assert Pow2(33) == 0x200000000 && Pow2(34) == 0x400000000;
    assert Pow2(35) == 0x800000000 && Pow2(36) == 0x1000000000;
    assert Pow2(37) == 0x2000000000 && Pow2(38) == 0x4000000000;
    assert Pow2(39) == 0x8000000000 && Pow2(40) == 0x10000000000;
    assert Pow2(41) == 0x20000000000 && Pow2(42) == 0x40000000000;
    assert Pow2(43) == 0x80000000000 && Pow2(44) == 0x100000000000;
    assert Pow2(45) == 0x200000000000 && Pow2(46) == 0x400000000000;
    assert Pow2(47) == 0x800000000000 && Pow2(48) == 0x1000000000000;
    assert Pow2(49) == 0x2000000000000 && Pow2(50) == 0x4000000000000;
    assert Pow2(51) == 0x8000000000000 && Pow2(52) == 0x10000000000000;
    assert Pow2(53) == 0x20000000000000 && Pow2(54) == 0x40000000000000;
    assert Pow2(55) == 0x80000000000000 && Pow2(56) == 0x100000000000000;
    assert Pow2(57) == 0x200000000000000 && Pow2(58) == 0x400000000000000;
    assert Pow2(59) == 0x800000000000000 && Pow2(60) == 0x1000000000000000;
    assert Pow2(61) == 0x2000000000000000 && Pow2(62) == 0x4000000000000000;
    assert Pow2(63) == 0x8000000000000000 && Pow2(64) == 0x10000000000000000;
  }

  lemma EstimateIsClose0(b: nat, t: nat)
    requires 1 <= b <= 13 && IsEstimate(b, t)
    ensures EstimateBrackets(b, t)
  {
    PowersOfTen();
    PowersOfTwo();
    if b <= 3 { EstimateRun(b, 0, 1, 3); }
    else if b <= 6 { EstimateRun(b, 1, 4, 6); }
    else if b <= 9 { EstimateRun(b, 2, 7, 9); }
    else { EstimateRun(b, 3, 10, 13); }
  }

  lemma EstimateIsClose1(b: nat, t: nat)
    requires 14 <= b <= 26 && IsEstimate(b, t)
    ensures EstimateBrackets(b, t)
  {
    PowersOfTen();
    PowersOfTwo();
    if b <= 16 { EstimateRun(b, 4, 14, 16); }
    else if b <= 19 { EstimateRun(b, 5, 17, 19); }
    else if b <= 23 { EstimateRun(b, 6, 20, 23); }
    else { EstimateRun(b, 7, 24, 26); }
  }

  lemma EstimateIsClose2(b: nat, t: nat)
    requires 27 <= b <= 39 && IsEstimate(b, t)
    ensures EstimateBrackets(b, t)
  {
    PowersOfTen();
    PowersOfTwo();
    if b <= 29 { EstimateRun(b, 8, 27, 29); }
    else if b <= 33 { EstimateRun(b, 9, 30, 33); }
    else if b <= 36 { EstimateRun(b, 10, 34, 36); }
    else { EstimateRun(b, 11, 37, 39); }
  }

  lemma EstimateIsClose3(b: nat, t: nat)
    requires 40 <= b <= 53 && IsEstimate(b, t)
    ensures EstimateBrackets(b, t)
  {
    PowersOfTen();
    PowersOfTwo();
    if b <= 43 { EstimateRun(b, 12, 40, 43); }
    else if b <= 46 { EstimateRun(b, 13, 44, 46); }
    else if b <= 49 { EstimateRun(b, 14, 47, 49); }
    else { EstimateRun(b, 15, 50, 53); }
  }

  lemma EstimateIsClose4(b: nat, t: nat)
    requires 54 <= b <= 64 && IsEstimate(b, t)
    ensures EstimateBrackets(b, t)
  {
    PowersOfTen();
    PowersOfTwo();
    if b <= 56 { EstimateRun(b, 16, 54, 56); }
    else if b <= 59 { EstimateRun(b, 17, 57, 59); }
    else if b <= 63 { EstimateRun(b, 18, 60, 63); }
    else { EstimateRun(b, 19, 64, 64); }
  }

  /** Setting the lowest bit changes the bit length of zero only. */
  lemma WordBounds(n: nat, b: nat)
    requires b == BitLength(OrOne(n))
    ensures b >= 1 && n < Pow2(b) && (b >= 2 ==> Pow2(b - 1) <= n)
  {
    BitLengthBounds(OrOne(n));
    if b >= 2 {
      assert Pow2(b - 1) == 2 * Pow2(b - 2);
    }
  }

  lemma BracketsBound(n: nat, b: nat, t: nat)
    requires b >= 1 && n < Pow2(b) && (b >= 2 ==> Pow2(b - 1) <= n)
    requires EstimateBrackets(b, t) && (b == 1 ==> t == 0)
    ensures n < Pow10(t + 1) && (t >= 1 ==> Pow10(t - 1) <= n)
  {
    hide Pow2, Pow10;
  }

  /** A word n with estimate t has t + 1 digits, or t when n is below the t-th power of ten. */
  lemma EstimateCounts(n: nat, b: nat, t: nat)
    requires b == BitLength(OrOne(n)) && EstimateBrackets(b, t) && (b == 1 ==> t == 0)
    ensures |Decimal(n)| == if t >= 1 && n < Pow10(t) then t else t + 1
  {
    WordBounds(n, b);
    BracketsBound(n, b, t);
    hide EstimateBrackets, Decimal, BitLength, OrOne, Pow2;
    LengthIs(n, if t >= 1 && n < Pow10(t) then t else t + 1);
  }

  lemma {:induction false} BitLengthWithin(n: nat, width: nat)
    requires 0 < n < Pow2(width)
    ensures 1 <= BitLength(n) <= width
  {
    if n > 1 {
      BitLengthWithin(n / 2, width - 1);
    }
  }

  lemma EstimateIsClose(width: nat, n: nat, b: nat, t: nat)
    requires 1 <= width <= 64 && n < Pow2(width)
    requires b == BitLength(OrOne(n)) && IsEstimate(b, t)
    ensures EstimateBrackets(b, t) && 1 <= b <= width
  {
    assert Pow2(width) == 2 * Pow2(width - 1);
    BitLengthWithin(OrOne(n), width);
    if b <= 13 {
      EstimateIsClose0(b, t);
    } else if b <= 26 {
      EstimateIsClose1(b, t);
    } else if b <= 39 {
      EstimateIsClose2(b, t);
    } else if b <= 53 {
      EstimateIsClose3(b, t);
    } else {
      EstimateIsClose4(b, t);
    }
  }

  /** The table lookup settles which of the two candidate lengths is right. */
  lemma LookupDecides(width: nat, n: nat, t: nat)
    requires (width == 32 && n < WORD32) || (width == 64 && n < WORD64)
    requires IsEstimate(width - Clz(width, OrOne(n)), t)
    ensures t < 20 && (width <= 32 ==> t < 10)
    ensures |Decimal(n)| == t - (if n < POWERS_OF_10_64[t] then 1 else 0) + 1
  {
    var b := BitLength(OrOne(n));
    PowersOfTwo();
    EstimateIsClose(width, n, b, t);
    EstimateCounts(n, b, t);
    PowersOfTen();
  }

  /** count_digits for 64-bit words: exactly the number of decimal digits. */
  function CountDigits64(n: nat): (count: nat)
    requires n < WORD64
    ensures count == |Decimal(n)|
  {
    var t := (64 - Clz(64, OrOne(n))) * 1233 / 4096;
    LookupDecides(64, n, t);
    t - (if n < POWERS_OF_10_64[t] then 1 else 0) + 1
  }

  /** The 32-bit version and its shorter table. */
  function CountDigits32(n: nat): (count: nat)
    requires n < WORD32
    ensures count == |Decimal(n)|
  {
    var t := (32 - Clz(32, OrOne(n))) * 1233 / 4096;
    LookupDecides(32, n, t);
    assert POWERS_OF_10_32 == POWERS_OF_10_64[..10];
    t - (if n < POWERS_OF_10_32[t] then 1 else 0) + 1
  }

  lemma DecimalByFour(n: nat)
    requires n >= 10000
    ensures |Decimal(n)| == 4 + |Decimal(n / 10000)|
  {
    var m := n / 10 / 10;
    assert m / 10 / 10 == n / 10000;
    assert |Decimal(n)| == 2 + |Decimal(m)|;
    assert |Decimal(m)| == 2 + |Decimal(m / 10 / 10)|;
  }

  lemma FewDigits(n: nat)
    requires n < 10000
    ensures |Decimal(n)| == if n < 10 then 1 else if n < 100 then 2 else if n < 1000 then 3 else 4
  {
    assert Pow10(2) == 100 && Pow10(3) == 1000 && Pow10(4) == 10000;
    LengthIs(n, if n < 10 then 1 else if n < 100 then 2 else if n < 1000 then 3 else 4);
  }

  /** The version used where no leading-zero count is available. */
  method CountDigitsFallback(n: nat) returns (count: nat)
    ensures count == |Decimal(n)|
  {
    var value := n;
    count := 1;
    while true
      invariant count + |Decimal(value)| == 1 + |Decimal(n)|
      decreases value
    {
      if value < 10000 { FewDigits(value); }
      if value < 10 { return; }
      if value < 100 { return count + 1; }
      if value < 1000 { return count + 2; }
      if value < 10000 { return count + 3; }
      DecimalByFour(value);
      value := value / 10000;
      count := count + 4;
    }
  }

  // ----- digit writing

  /** The table of digit pairs "00" to "99", kept as ten rows of twenty characters. */
  const DIGITS: seq<string> := [
    "00010203040506070809",
    "10111213141516171819",
    "20212223242526272829",
    "30313233343536373839",
    "40414243444546474849",
    "50515253545556575859",
    "60616263646566676869",
    "70717273747576777879",
    "80818283848586878889",
    "90919293949596979899"]

  ghost predicate IsRow(row: string, tens: nat)
    requires tens < 10
  {
    |row| == 20 && forall k :: 0 <= k < 10 ==> row[2 * k] == Digit(tens) && row[2 * k + 1] == Digit(k)
  }

  lemma RowOf(row: string, tens: nat, t: char)
    requires tens < 10 && t == Digit(tens)
    requires row == [t, '0', t, '1', t, '2', t, '3', t, '4', t, '5', t, '6', t, '7', t, '8', t, '9']
    ensures IsRow(row, tens)
  {
  }

  lemma RowsAreDigits(tens: nat)
    requires tens < 10
    ensures |DIGITS| == 10 && IsRow(DIGITS[tens], tens)
  {
    if tens == 0 { RowOf(DIGITS[0], 0, '0'); }
    else if tens == 1 { RowOf(DIGITS[1], 1, '1'); }
    else if tens == 2 { RowOf(DIGITS[2], 2, '2'); }
    else if tens == 3 { RowOf(DIGITS[3], 3, '3'); }
    else if tens == 4 { RowOf(DIGITS[4], 4, '4'); }
    else if tens == 5 { RowOf(DIGITS[5], 5, '5'); }
    else if tens == 6 { RowOf(DIGITS[6], 6, '6'); }
    else if tens == 7 { RowOf(DIGITS[7], 7, '7'); }
    else if tens == 8 { RowOf(DIGITS[8], 8, '8'); }
    else { RowOf(DIGITS[9], 9, '9'); }
  }

  /** Character `index` of the table. */
  function TableAt(index: nat): char
    requires index < 200
  {
    RowsAreDigits(index / 20);
    DIGITS[index / 20][index % 20]
  }

  /** The table holds the two digits of every number below 100. */
  lemma TablePair(k: nat)
    requires k < 100
    ensures TableAt(2 * k) == Digit(k / 10) && TableAt(2 * k + 1) == Digit(k % 10)
  {
    PairPosition(k);
    RowsAreDigits(k / 10);
  }

  lemma PairPosition(k: nat)
    ensures 2 * k / 20 == (2 * k + 1) / 20 == k / 10
    ensures 2 * k % 20 == 2 * (k % 10) && (2 * k + 1) % 20 == 2 * (k % 10) + 1
  {
  }

  /** The last two digits can be written together. */
  lemma DecimalByTwo(n: nat)
    requires n >= 100
    ensures Decimal(n) == Decimal(n / 100) + [Digit(n % 100 / 10), Digit(n % 100 % 10)]
  {
    assert n / 10 / 10 == n / 100 && n / 10 % 10 == n % 100 / 10 && n % 10 == n % 100 % 10;
    assert Decimal(n) == Decimal(n / 10) + [Digit(n % 10)];
    assert Decimal(n / 10) == Decimal(n / 10 / 10) + [Digit(n / 10 % 10)];
  }

  /** The buffer with `text` ending just before `end`, and otherwise as it was. */
  ghost function Overwritten(before: string, end: nat, text: string): string
    requires |text| <= end <= |before|
  {
    before[..end - |text|] + text + before[end..]
  }

  lemma OverwriteMore(before: string, end: nat, text: string, c: char)
    requires |text| < end <= |before|
    ensures Overwritten(before, end, text)[end - |text| - 1 := c] == Overwritten(before, end, [c] + text)
  {
  }

  lemma DecimalPairStep(value: nat, left: nat, written: string)
    requires left >= 100 && Decimal(value) == Decimal(left) + written
    ensures Decimal(value) == Decimal(left / 100) + ([Digit(left % 100 / 10), Digit(left % 100 % 10)] + written)
  {
    DecimalByTwo(left);
  }

  lemma TwoDigits(n: nat)
    requires 10 <= n < 100
    ensures Decimal(n) == [Digit(n / 10), Digit(n % 10)]
  {
  }

  /** Writes value so that its last digit comes just before `end`; `begin` is where it starts.
      Both format_decimal functions of the library are this loop. */
  method WriteBackwards(buffer: array<char>, end: nat, value: nat) returns (begin: nat)
    requires |Decimal(value)| <= end <= buffer.Length
    modifies buffer
    ensures begin + |Decimal(value)| == end
    ensures buffer[..] == Overwritten(old(buffer[..]), end, Decimal(value))
  {
    ghost var before := buffer[..];
    ghost var written := "";
    var left := value;
    begin := end;
    while left >= 100
      invariant begin + |written| == end && Decimal(value) == Decimal(left) + written
      invariant buffer[..] == Overwritten(before, end, written)
    {
      DecimalPairStep(value, left, written);
      begin, written := WritePair(buffer, begin, left % 100, before, end, written);
      left := left / 100;
    }
    if left < 10 {
      OverwriteMore(before, end, written, Digit(left));
      begin := begin - 1;
      buffer[begin] := ('0' as int + left) as char;
      return;
    }
    TwoDigits(left);
    begin, written := WritePair(buffer, begin, left, before, end, written);
  }

  /** Two cells at once, from the table. */
  method WritePair(buffer: array<char>, begin: nat, k: nat,
                   ghost before: string, ghost end: nat, ghost written: string)
    returns (newBegin: nat, ghost newWritten: string)
    requires k < 100 && begin + |written| == end <= |before| && 2 <= begin
    requires buffer[..] == Overwritten(before, end, written)
    modifies buffer
    ensures newBegin == begin - 2 && newWritten == [Digit(k / 10), Digit(k % 10)] + written
    ensures buffer[..] == Overwritten(before, end, newWritten)
  {
    var index := k * 2;
    TablePair(k);
    newBegin := begin - 1;
    OverwriteMore(before, end, written, TableAt(index + 1));
    buffer[newBegin] := TableAt(index + 1);
    newWritten := [TableAt(index + 1)] + written;
    newBegin := newBegin - 1;
    OverwriteMore(before, end, newWritten, TableAt(index));
    buffer[newBegin] := TableAt(index);
    newWritten := [TableAt(index)] + newWritten;
  }

  /** internal::format_decimal: fills exactly the numDigits cells from `start` on. */
  method FormatDecimal(buffer: array<char>, start: nat, value: nat, numDigits: nat)
    requires numDigits == |Decimal(value)| && start + numDigits <= buffer.Length
    modifies buffer
    ensures buffer[..] == old(buffer[..start]) + Decimal(value) + old(buffer[start + numDigits..])
  {
    var begin := WriteBackwards(buffer, start + numDigits, value);
  }

  /** 0 - n on 64-bit words. */
  function Negate64(n: nat): nat
    requires n < WORD64
  {
    (0 - n) % WORD64
  }

  /** The signed decimal notation of a number. */
  function SignedDecimal(value: int): string {
    if value < 0 then "-" + Decimal(-value) else Decimal(value)
  }

  lemma Word64Fits(n: nat)
    requires n < WORD64
    ensures |Decimal(n)| <= 20
  {
    PowersOfTen();
    DecimalLength(n);
    if |Decimal(n)| > 20 {
      Pow10Monotone(20, |Decimal(n)| - 1);
    }
  }

  /** digits10 of a 64-bit word is 19; the buffer adds a digit, a sign and a terminator. */
  const BUFFER_SIZE: nat := 22

  class FormatInt {
    const buffer: array<char>
    var str: nat

    ghost predicate Valid()
      reads this
    {
      buffer.Length == BUFFER_SIZE && str < BUFFER_SIZE
    }

    /** data() and size(): the text lies between str and the cell kept for the terminator. */
    function Text(): string
      requires Valid()
      reads this, buffer
    {
      buffer[str..BUFFER_SIZE - 1]
    }

    function Size(): (size: nat)
      requires Valid()
      reads this, buffer
      ensures size == |Text()|
    {
      0 - str + BUFFER_SIZE - 1
    }

    constructor Unsigned(value: nat)
      requires value < WORD64
      ensures Valid() && fresh(buffer) && Text() == Decimal(value)
    {
      buffer := new char[BUFFER_SIZE];
      new;
      Word64Fits(value);
      str := WriteBackwards(buffer, BUFFER_SIZE - 1, value);
    }

    constructor Signed(value: int)
      requires -0x8000_0000_0000_0000 <= value < 0x8000_0000_0000_0000
      ensures Valid() && fresh(buffer) && Text() == SignedDecimal(value)
    {
      buffer := new char[BUFFER_SIZE];
      new;
      var absValue: nat := value % WORD64;
      var negative := value < 0;
      if negative {
        absValue := Negate64(absValue);
      }
      assert absValue == if negative then -value else value;
      Word64Fits(absValue);
      str := WriteBackwards(buffer, BUFFER_SIZE - 1, absValue);
      if negative {
        str := str - 1;
        buffer[str] := '-';
      }
    }
  }
}
