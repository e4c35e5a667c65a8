/**
 The centre label: the index of the current five-minute block of the day,
 counted up from midnight or down towards it, written in decimal into a
 reused character buffer through a bounded `snprintf`.
 */
module Label {
  import opened Clock

  /** The face's compile-time count direction (main.c defines it false). */
  const CountUp: bool := false

  /** Five-minute blocks in a day: 24 * 12. */
  const BlocksPerDay: nat := 288

  /** The size argument the face passes to snprintf. */
  const LabelSize: nat := 4

  /** The bytes the face actually reserves: the literal "0" and its terminator. */
  const DeclaredBufferLength: nat := 2

  // ---------------------------------------------------------------- block number

  /** Index of the five-minute block the reading falls in. */
  function CountUpBlock(t: Reading): (b: nat)
    requires WellFormed(t)
    ensures b < BlocksPerDay
    ensures b == 0 <==> t.hour == 0 && t.minute < 5
  {
    t.hour * 12 + t.minute / 5
  }

  /** Blocks left in the day, counting the current one. */
  function CountDownBlock(t: Reading): (b: nat)
    requires WellFormed(t)
    ensures 1 <= b <= BlocksPerDay
    ensures b + CountUpBlock(t) == BlocksPerDay
  {
    BlocksPerDay - (t.hour * 12 + t.minute / 5)
  }

  /** The number the label shows, for either count direction. */
  function BlockNumber(t: Reading, countUp: bool): (b: nat)
    requires WellFormed(t)
    ensures countUp ==> b < BlocksPerDay
    ensures !countUp ==> 1 <= b <= BlocksPerDay
  {
    if countUp then CountUpBlock(t) else CountDownBlock(t)
  }

  /** The count-up block is the index of the 300-second cycle the reading lies in. */
  lemma CountUpBlockIsCycleIndex(t: Reading)
    requires Ordinary(t)
    ensures CountUpBlock(t) == TotalSeconds(t) / 300
  {
    var x := TotalSeconds(t);
    var q := t.hour * 12 + t.minute / 5;
    var r := (t.minute % 5) * 60 + t.second;
    assert t.minute == (t.minute / 5) * 5 + t.minute % 5;
    assert x == q * 300 + r;
    assert 0 <= r < 300;
  }

  /** As time advances the count-up block never decreases, and the count-down block never increases. */
  lemma BlockMonotone(a: Reading, b: Reading)
    requires WellFormed(a) && WellFormed(b)
    requires Before(a, b)
    ensures CountUpBlock(a) <= CountUpBlock(b)
    ensures CountDownBlock(a) >= CountDownBlock(b)
  {
    assert a.minute / 5 <= 11 && b.minute / 5 >= 0;
    if a.hour == b.hour {
      assert a.minute <= b.minute;
      assert a.minute / 5 <= b.minute / 5;
    }
  }

  /** Fixed points of the count-down label. */
  lemma CountDownLandmarks()
    ensures CountDownBlock(Reading(0, 0, 0)) == 288
    ensures CountDownBlock(Reading(12, 0, 0)) == 144
    ensures CountDownBlock(Reading(23, 55, 0)) == 1
  {
  }

  // ---------------------------------------------------------------- decimal text

  /** The character of a decimal digit. */
  function Digit(d: nat): (c: char)
    requires d < 10
    ensures '0' <= c <= '9'
  {
    ('0' as int + d) as char
  }

  predicate IsDigit(c: char) {
    '0' <= c <= '9'
  }

  /** The value of a digit character. */
  function DigitValue(c: char): (d: nat)
    requires IsDigit(c)
    ensures d < 10 && Digit(d) == c
  {
    c as int - '0' as int
  }

  /** The base-10 text of n, as "%d" prints it. */
  function Decimal(n: nat): (s: string)
    ensures |s| >= 1
    ensures forall i :: 0 <= i < |s| ==> IsDigit(s[i])
    decreases n
  {
    if n < 10 then [Digit(n)] else Decimal(n / 10) + [Digit(n % 10)]
  }

  /** The number a string of decimal digits denotes. */
  function Value(s: string): nat
    requires forall i :: 0 <= i < |s| ==> IsDigit(s[i])
    decreases |s|
  {
    if s == [] then 0 else Value(s[..|s| - 1]) * 10 + DigitValue(s[|s| - 1])
  }

  function Pow10(k: nat): (p: nat)
    ensures p >= 1
  {
    if k == 0 then 1 else 10 * Pow10(k - 1)
  }

  /** Decimal(n) is non-empty, made of digits only, and has no leading zero. */
  lemma {:induction false} DecimalWellFormed(n: nat)
    ensures |Decimal(n)| >= 1
    ensures forall i :: 0 <= i < |Decimal(n)| ==> IsDigit(Decimal(n)[i])
    ensures Decimal(n)[0] == '0' <==> n == 0
  {
    if n >= 10 {
      DecimalWellFormed(n / 10);
      var s := Decimal(n / 10);
      assert Decimal(n) == s + [Digit(n % 10)];
      assert Decimal(n)[0] == s[0];
    }
  }

  /** Reading the digits back gives the number. */
  lemma {:induction false} DecimalRoundTrip(n: nat)
    ensures forall i :: 0 <= i < |Decimal(n)| ==> IsDigit(Decimal(n)[i])
    ensures Value(Decimal(n)) == n
  {
    DecimalWellFormed(n);
    if n >= 10 {
      DecimalRoundTrip(n / 10);
      var s := Decimal(n);
      assert s[..|s| - 1] == Decimal(n / 10);
    }
  }

  /** Decimal(n) fits in k characters exactly when n < 10^k. */
  lemma {:induction false} DecimalLength(n: nat, k: nat)
    requires k >= 1
    ensures |Decimal(n)| <= k <==> n < Pow10(k)
  {
    if n >= 10 {
      if k == 1 {
        assert Pow10(1) == 10;
        DecimalWellFormed(n / 10);
      } else {
        DecimalLength(n / 10, k - 1);
        assert n < Pow10(k) <==> n / 10 < Pow10(k - 1);
      }
    } else {
      assert Pow10(k) >= 10 by { PowAtLeastTen(k); }
    }
  }

  lemma {:induction false} PowAtLeastTen(k: nat)
    requires k >= 1
    ensures Pow10(k) >= 10
  {
    if k > 1 {
      PowAtLeastTen(k - 1);
    }
  }

  /** Every number the label can show (at most 288) is one to three digits long. */
  lemma LabelDigits(t: Reading, countUp: bool)
    requires WellFormed(t)
    ensures 1 <= |Decimal(BlockNumber(t, countUp))| <= LabelSize - 1
    ensures |Decimal(BlockNumber(t, countUp))| >= 2 <==> BlockNumber(t, countUp) >= 10
  {
    var b := BlockNumber(t, countUp);
    DecimalWellFormed(b);
    DecimalLength(b, 3);
    DecimalLength(b, 1);
    assert Pow10(3) == 1000 && Pow10(1) == 10;
  }

  // ---------------------------------------------------------------- the buffer

  /** Bytes snprintf(buffer, size, "%d", n) stores: as many digits as fit before the terminator, then the terminator. */
  function BytesStored(size: nat, n: nat): (k: nat)
    requires size > 0
    ensures 1 <= k <= size
    ensures k <= |Decimal(n)| + 1
    ensures k == |Decimal(n)| + 1 <==> |Decimal(n)| < size
    ensures |Decimal(n)| >= size ==> k == size
  {
    if |Decimal(n)| < size then |Decimal(n)| + 1 else size
  }

  /** The text a NUL-terminated buffer holds: everything before the first NUL. */
  function CString(s: seq<char>): (r: seq<char>)
    ensures |r| <= |s|
    ensures r == s[..|r|]
    ensures '\0' !in r
    ensures |r| < |s| ==> s[|r|] == '\0'
    decreases |s|
  {
    if s == [] || s[0] == '\0' then [] else [s[0]] + CString(s[1..])
  }

  lemma {:induction false} CStringOfTerminated(text: seq<char>, rest: seq<char>)
    requires '\0' !in text
    ensures CString(text + ['\0'] + rest) == text
  {
    if text != [] {
      assert (text + ['\0'] + rest)[1..] == text[1..] + ['\0'] + rest;
      CStringOfTerminated(text[1..], rest);
    }
  }

  /**
   Formats n in decimal into buffer with at most size bytes, as snprintf does:
   the digits that fit before the last byte, then a terminator. Returns the
   length of the full text, truncated or not.
   */
  method Snprintf(buffer: array<char>, size: nat, n: nat) returns (length: nat)
    requires 0 < size <= buffer.Length
    modifies buffer
    ensures length == |Decimal(n)|
    ensures buffer[..BytesStored(size, n)] == Decimal(n)[..BytesStored(size, n) - 1] + ['\0']
    ensures buffer[BytesStored(size, n)..] == old(buffer[BytesStored(size, n)..])
  {
    var digits := Decimal(n);
    var k := if |digits| < size then |digits| else size - 1;
    var i := 0;
    while i < k
      invariant 0 <= i <= k
      invariant buffer[..i] == digits[..i]
      invariant forall j :: i <= j < buffer.Length ==> buffer[j] == old(buffer[j])
    {
      buffer[i] := digits[i];
      i := i + 1;
    }
    buffer[k] := '\0';
    length := |digits|;
    assert buffer[..k + 1] == digits[..k] + ['\0'];
  }

  /**
   set_time_label with a buffer of LabelSize bytes: the buffer then holds the
   whole decimal text of the block number, which is what the label displays.
   */
  method SetTimeLabel(t: Reading, buffer: array<char>) returns (text: string)
    requires WellFormed(t)
    requires buffer.Length >= LabelSize
    modifies buffer
    ensures text == Decimal(BlockNumber(t, CountUp))
    ensures forall i :: 0 <= i < |text| ==> IsDigit(text[i])
    ensures Value(text) == BlockNumber(t, CountUp)
    ensures CString(buffer[..]) == text
    ensures |text| < LabelSize
    ensures buffer[|text| + 1..] == old(buffer[|text| + 1..])
  {
    var block := BlockNumber(t, CountUp);
    LabelDigits(t, CountUp);
    DecimalRoundTrip(block);
    var length := Snprintf(buffer, LabelSize, block);
    text := Decimal(block);
    assert buffer[..length + 1] == text + ['\0'];
    assert buffer[..] == text + ['\0'] + buffer[length + 1..];
    CStringOfTerminated(text, buffer[length + 1..]);
  }

  /** In a LabelSize buffer the label is never truncated. */
  lemma LabelFitsBuffer(t: Reading)
    requires WellFormed(t)
    ensures BytesStored(LabelSize, BlockNumber(t, CountUp)) == |Decimal(BlockNumber(t, CountUp))| + 1
  {
    LabelDigits(t, CountUp);
  }

  /**
   As written, snprintf is told LabelSize bytes but only DeclaredBufferLength
   exist: it stores past the end of the buffer exactly when the block number has
   two or more digits.
   */
  lemma DeclaredBufferOverflow(t: Reading)
    requires WellFormed(t)
    ensures BytesStored(LabelSize, BlockNumber(t, CountUp)) > DeclaredBufferLength
        <==> BlockNumber(t, CountUp) >= 10
  {
    LabelDigits(t, CountUp);
  }

  /** At midnight the count-down label "288" needs four bytes, two more than declared. */
  lemma MidnightOverflow()
    ensures BlockNumber(Reading(0, 0, 0), CountUp) == 288
    ensures Decimal(288) == "288"
    ensures BytesStored(LabelSize, 288) == DeclaredBufferLength + 2
  {
    DecimalOf288();
  }

  lemma DecimalOf288()
    ensures Decimal(288) == "288"
  {
    assert Digit(2) == '2' && Digit(8) == '8';
    assert Decimal(2) == "2";
    assert Decimal(28) == Decimal(2) + ['8'];
    assert Decimal(288) == Decimal(28) + ['8'];
  }
}
