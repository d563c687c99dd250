/** The factoradic converter: decimal numbers to factorial base (digit p,
    counted from the right starting at 1, weighs p! and lies in 0 .. p) and
    back, one input line at a time. The source works in `unsigned long long`
    (64 bits); here numbers are unbounded and every 64-bit limit is written
    out. */
module Factoradic {
  import opened CType
  import opened Optional
  import opened Decimal

  const MaxULL: nat := 0xFFFF_FFFF_FFFF_FFFF
  const Modulus: nat := 0x1_0000_0000_0000_0000

  /** The exact factorial. */
  function Fact(n: nat): (r: nat)
    ensures r >= 1
  {
    if n == 0 then 1 else n * Fact(n - 1)
  }

  lemma {:induction false} FactMonotone(m: nat, n: nat)
    requires m <= n
    ensures Fact(m) <= Fact(n)
    decreases n
  {
    if m < n {
      FactMonotone(m, n - 1);
    }
  }

  lemma FactTwenty()
    ensures Fact(20) == 2432902008176640000 <= MaxULL
    ensures Fact(21) == 51090942171709440000 > MaxULL
  {
    assert Fact(10) == 3628800;
    assert Fact(15) == 1307674368000;
  }

  // -------------------------------------------------------------- factorial

  /** factorial's loop from i with the running product: before multiplying,
      a product that would exceed the 64-bit range makes it return 0. */
  function FactorialLoop(result: nat, i: nat, n: nat): nat
    requires i >= 2
    decreases n + 1 - i
  {
    if i > n then result
    else if result > MaxULL / i then 0
    else FactorialLoop(result * i, i + 1, n)
  }

  function Factorial(n: int): nat {
    if n <= 1 then 1 else FactorialLoop(1, 2, n)
  }

  lemma DivFloor(a: nat, b: nat, m: nat)
    requires b > 0
    ensures a > m / b <==> a * b > m
  {
    var q := m / b;
    assert m == q * b + m % b;
    if a > q {
      assert a * b >= (q + 1) * b;
    } else {
      assert a * b <= q * b;
    }
  }

  lemma {:induction false} LoopExact(i: nat, n: nat)
    requires 2 <= i <= n + 1 && Fact(i - 1) <= MaxULL
    ensures FactorialLoop(Fact(i - 1), i, n) == if Fact(n) <= MaxULL then Fact(n) else 0
    decreases n + 1 - i
  {
    if i <= n {
      DivFloor(Fact(i - 1), i, MaxULL);
      assert Fact(i - 1) * i == Fact(i);
      if Fact(i) > MaxULL {
        FactMonotone(i, n);
      } else {
        LoopExact(i + 1, n);
      }
    }
  }

  /** factorial is 1 up to 1, the exact n! while it fits in 64 bits (up to
      20!), and 0 from 21 on. */
  lemma FactorialCases(n: int)
    ensures n <= 1 ==> Factorial(n) == 1
    ensures 1 <= n <= 20 ==> Factorial(n) == Fact(n)
    ensures n >= 21 ==> Factorial(n) == 0
  {
    if n >= 2 {
      FactTwenty();
      assert Fact(1) == 1;
      LoopExact(2, n);
      if n <= 20 {
        FactMonotone(n, 20);
      } else {
        FactMonotone(21, n);
      }
    }
  }

  lemma FactorialPositive(n: nat)
    requires 1 <= n <= 20
    ensures Factorial(n) > 0
  {
    FactorialCases(n);
  }

  // ------------------------------------------------- decimal_to_factoradic

  /** The loop that finds max_pos: grow while the next factorial fits in num
      and has not overflowed to 0. */
  function MaxPosFrom(k: nat, num: nat): (r: nat)
    requires 1 <= k <= 20
    ensures k <= r <= 20
    decreases 20 - k
  {
    FactorialCases(k + 1);
    if Factorial(k + 1) <= num && Factorial(k + 1) > 0 then MaxPosFrom(k + 1, num) else k
  }

  function MaxPos(num: nat): (r: nat)
    ensures 1 <= r <= 20
  {
    MaxPosFrom(1, num)
  }

  lemma {:induction false} MaxPosFromMeaning(k: nat, num: nat)
    requires 1 <= k <= 20 && Fact(k) <= num <= MaxULL
    ensures Fact(MaxPosFrom(k, num)) <= num < Fact(MaxPosFrom(k, num) + 1)
    decreases 20 - k
  {
    FactorialCases(k + 1);
    if k + 1 <= 20 {
      if Fact(k + 1) <= num {
        MaxPosFromMeaning(k + 1, num);
      }
    } else {
      FactTwenty();
    }
  }

  /** max_pos is the largest position whose factorial fits in num. */
  lemma MaxPosMeaning(num: nat)
    requires 1 <= num <= MaxULL
    ensures Fact(MaxPos(num)) <= num < Fact(MaxPos(num) + 1)
  {
    assert Fact(1) == 1;
    MaxPosFromMeaning(1, num);
  }

  /** The conversion loop for positions pos down to 1: the digit is
      remaining / pos!, checked against pos, and remaining keeps the
      remainder. None is the "invalid digit" error return. */
  function Extract(pos: nat, remaining: nat): (r: Option<seq<nat>>)
    requires pos <= 20
    ensures r.Some? ==> |r.value| == pos && forall i | 0 <= i < pos :: r.value[i] <= pos - i
    decreases pos
  {
    if pos == 0 then Some([])
    else
      FactorialPositive(pos);
      var f := Factorial(pos);
      var digit := remaining / f;
      if digit > pos then None
      else
        match Extract(pos - 1, remaining % f)
        case None => None
        case Some(rest) => Some([digit] + rest)
  }

  /** The value of factoradic digits, the last one at position 1. */
  function FValue(ds: seq<nat>): nat
    decreases |ds|
  {
    if |ds| == 0 then 0 else ds[0] * Fact(|ds|) + FValue(ds[1..])
  }

  /** Every digit within the bound of its position. */
  predicate Bounded(ds: seq<nat>) {
    forall i | 0 <= i < |ds| :: ds[i] <= |ds| - i
  }

  /** ds is the factoradic form of num: no leading zero, every digit within
      its bound, and the weighted sum equal to num. */
  predicate IsFactoradic(ds: seq<nat>, num: nat) {
    |ds| >= 1 && ds[0] > 0 && Bounded(ds) && FValue(ds) == num
  }

  lemma DivStep(remaining: nat, f: nat, pos: nat)
    requires f > 0 && remaining < (pos + 1) * f
    ensures remaining / f <= pos
    ensures remaining == (remaining / f) * f + remaining % f && remaining % f < f
  {
    DivFloor(pos + 1, f, remaining);
  }

  /** While remaining stays below (pos+1)!, every digit is within its bound
      and the digits' weighted sum is remaining: the guard never fires. */
  lemma {:induction false} ExtractMeaning(pos: nat, remaining: nat)
    requires pos <= 20 && remaining < Fact(pos + 1)
    ensures Extract(pos, remaining).Some?
    ensures var ds := Extract(pos, remaining).value;
            |ds| == pos && Bounded(ds) && FValue(ds) == remaining
    decreases pos
  {
    if pos > 0 {
      FactorialCases(pos);
      var f := Fact(pos);
      DivStep(remaining, f, pos);
      ExtractMeaning(pos - 1, remaining % f);
      var rest := Extract(pos - 1, remaining % f).value;
      var ds := [remaining / f] + rest;
      assert ds[1..] == rest;
      assert Extract(pos, remaining) == Some(ds);
    } else {
      assert remaining < 1;
    }
  }

  /** The digits as written: '0' + digit, so a digit of 10 or more comes out
      as ':' and beyond. */
  function DigitText(ds: seq<nat>): (r: string)
    requires forall i | 0 <= i < |ds| :: ds[i] <= 20
    ensures |r| == |ds|
  {
    if |ds| == 0 then [] else [('0' as int + ds[0]) as char] + DigitText(ds[1..])
  }

  /** decimal_to_factoradic, without the newline: "0" for zero, otherwise
      the digits from max_pos down to 1; None for the invalid-digit
      error. */
  function ToFactoradic(num: nat): Option<string> {
    if num == 0 then Some("0")
    else
      match Extract(MaxPos(num), num)
      case None => None
      case Some(ds) => Some(DigitText(ds))
  }

  /** For every 64-bit number the conversion succeeds and writes the
      factoradic form of the number, with at most 20 digits. */
  lemma ToFactoradicMeaning(num: nat) returns (ds: seq<nat>)
    requires 1 <= num <= MaxULL
    ensures IsFactoradic(ds, num) && |ds| <= 20 && |ds| == MaxPos(num)
    ensures ToFactoradic(num) == Some(DigitText(ds))
  {
    MaxPosMeaning(num);
    var k := MaxPos(num);
    ExtractMeaning(k, num);
    ds := Extract(k, num).value;
    FactorialCases(k);
    assert ds[0] == num / Fact(k);
    DivFloor(1, Fact(k), num);
  }

  // ------------------------------------------------- factoradic_to_decimal

  datatype DecodeError = InvalidCharacter(c: char) | DigitTooLarge(digit: nat, position: nat) | TooLarge

  datatype Decoded = Number(value: nat) | Failed(err: DecodeError)

  /** The loop of factoradic_to_decimal from index i with the running
      result. As written (fixed == false) the contribution is
      digit * factorial(position) in 64 bits: it wraps, and it is 0 beyond
      position 20 where factorial has overflowed. Corrected (fixed == true)
      it is the exact digit * position!, and the overflow check then sees
      every number too large for 64 bits. */
  function DecodeFrom(s: string, i: nat, result: nat, fixed: bool): Decoded
    requires i <= |s|
    decreases |s| - i
  {
    if i == |s| then Number(result)
    else if !IsDigit(s[i]) then Failed(InvalidCharacter(s[i]))
    else
      var digit := DigitValue(s[i]);
      var position := |s| - i;
      if digit > position then Failed(DigitTooLarge(digit, position))
      else
        var contribution := if fixed then digit * Fact(position) else (digit * Factorial(position)) % Modulus;
        if result > MaxULL - contribution then Failed(TooLarge)
        else DecodeFrom(s, i + 1, result + contribution, fixed)
  }

  function FactoradicToDecimal(s: string, fixed: bool): Decoded {
    DecodeFrom(s, 0, 0, fixed)
  }

  /** A digit string with every digit within the bound of its position. */
  predicate WellFormed(s: string) {
    forall i | 0 <= i < |s| :: IsDigit(s[i]) && DigitValue(s[i]) <= |s| - i
  }

  /** The value of a well-formed digit string. */
  function SValue(s: string): nat
    requires WellFormed(s)
    decreases |s|
  {
    if |s| == 0 then 0 else DigitValue(s[0]) * Fact(|s|) + SValue(s[1..])
  }

  lemma {:induction false} DecodeFromChecked(s: string, i: nat, result: nat)
    requires i <= |s| && WellFormed(s) && result <= MaxULL
    ensures DecodeFrom(s, i, result, true) ==
              if result + SValue(s[i..]) <= MaxULL then Number(result + SValue(s[i..])) else Failed(TooLarge)
    decreases |s| - i
  {
    if i < |s| {
      SValueHead(s, i);
      var c := DigitValue(s[i]) * Fact(|s| - i);
      if result <= MaxULL - c {
        DecodeFromChecked(s, i + 1, result + c);
      }
    }
  }

  /** The corrected decoder returns the value of every well-formed string
      that fits in 64 bits and reports every other well-formed string as
      too large. */
  lemma CheckedMeaning(s: string)
    requires WellFormed(s)
    ensures FactoradicToDecimal(s, true) ==
              if SValue(s) <= MaxULL then Number(SValue(s)) else Failed(TooLarge)
  {
    DecodeFromChecked(s, 0, 0);
    assert s[0..] == s;
  }

  /** Both decoders accept only well-formed strings. */
  lemma {:induction false} AcceptsWellFormed(s: string, i: nat, result: nat, fixed: bool)
    requires i <= |s| && DecodeFrom(s, i, result, fixed).Number?
    ensures forall k | i <= k < |s| :: IsDigit(s[k]) && DigitValue(s[k]) <= |s| - k
    decreases |s| - i
  {
    if i < |s| {
      var digit := DigitValue(s[i]);
      var position := |s| - i;
      var contribution := if fixed then digit * Fact(position) else (digit * Factorial(position)) % Modulus;
      AcceptsWellFormed(s, i + 1, result + contribution, fixed);
    }
  }

  lemma WellFormedSuffix(s: string, i: nat)
    requires i <= |s| && WellFormed(s)
    ensures WellFormed(s[i..])
  {
    var t := s[i..];
    forall k | 0 <= k < |t| ensures IsDigit(t[k]) && DigitValue(t[k]) <= |t| - k {
      assert t[k] == s[i + k];
    }
  }

  /** The first step on a well-formed string: the digit, its weight and the
      rest. */
  lemma SValueHead(s: string, i: nat)
    requires i < |s| && WellFormed(s)
    ensures WellFormed(s[i..]) && WellFormed(s[i + 1..])
    ensures SValue(s[i..]) == DigitValue(s[i]) * Fact(|s| - i) + SValue(s[i + 1..])
  {
    WellFormedSuffix(s, i);
    WellFormedSuffix(s, i + 1);
    var t := s[i..];
    assert t[1..] == s[i + 1..];
    assert t[0] == s[i];
  }

  /** Up to 20 positions and within 64 bits, the decoder as written agrees
      with the corrected one. */
  lemma {:induction false} DecodeFromAgrees(s: string, i: nat, result: nat)
    requires i <= |s| <= 20 && WellFormed(s) && result + SValue(s[i..]) <= MaxULL
    ensures DecodeFrom(s, i, result, false) == DecodeFrom(s, i, result, true)
    decreases |s| - i
  {
    if i < |s| {
      SValueHead(s, i);
      var d, p := DigitValue(s[i]), |s| - i;
      Contribution(d, p, result + SValue(s[i + 1..]));
      DecodeFromAgrees(s, i + 1, result + d * Fact(p));
    }
  }

  /** A contribution that fits in 64 bits is not changed by the wrap. */
  lemma Contribution(d: nat, p: nat, others: nat)
    requires 1 <= p <= 20 && others + d * Fact(p) <= MaxULL
    ensures (d * Factorial(p)) % Modulus == d * Fact(p)
  {
    FactorialCases(p);
    var c := d * Fact(p);
    assert c < Modulus;
  }

  lemma AsWrittenAgrees(s: string)
    requires WellFormed(s) && |s| <= 20 && SValue(s) <= MaxULL
    ensures FactoradicToDecimal(s, false) == Number(SValue(s))
  {
    assert s[0..] == s;
    DecodeFromAgrees(s, 0, 0);
    CheckedMeaning(s);
  }

  lemma {:induction false} TextValue(ds: seq<nat>)
    requires Bounded(ds) && forall i | 0 <= i < |ds| :: ds[i] <= 9
    ensures WellFormed(DigitText(ds)) && SValue(DigitText(ds)) == FValue(ds)
    decreases |ds|
  {
    if |ds| > 0 {
      TextValue(ds[1..]);
      var t := DigitText(ds);
      assert t[1..] == DigitText(ds[1..]);
      assert forall i | 1 <= i < |ds| :: ds[1..][i - 1] == ds[i] && t[i] == t[1..][i - 1];
    }
  }

  lemma {:induction false} DigitTextDigits(ds: seq<nat>)
    requires forall i | 0 <= i < |ds| :: ds[i] <= 20
    requires AllDigits(DigitText(ds))
    ensures forall i | 0 <= i < |ds| :: ds[i] <= 9
    decreases |ds|
  {
    if |ds| > 0 {
      var t := DigitText(ds);
      assert t[1..] == DigitText(ds[1..]);
      assert IsDigit(t[0]);
      DigitTextDigits(ds[1..]);
      assert forall i | 1 <= i < |ds| :: ds[i] == ds[1..][i - 1];
    }
  }

  /** Decoding the converter's output gives the number back, with either
      decoder, whenever the output consists of decimal digits only (a digit
      of 10 or more is written as ':' or beyond, which the decoder
      rejects). */
  lemma RoundTrip(num: nat, fixed: bool)
    requires 1 <= num <= MaxULL
    ensures ToFactoradic(num).Some?
    ensures AllDigits(ToFactoradic(num).value) ==> FactoradicToDecimal(ToFactoradic(num).value, fixed) == Number(num)
  {
    var ds := ToFactoradicMeaning(num);
    var t := DigitText(ds);
    if AllDigits(t) {
      DigitTextDigits(ds);
      TextValue(ds);
      if fixed {
        CheckedMeaning(t);
      } else {
        AsWrittenAgrees(t);
      }
    }
  }

  lemma RoundTripZero(fixed: bool)
    ensures FactoradicToDecimal(ToFactoradic(0).value, fixed) == Number(0)
  {
    assert Fact(1) == 1;
    FactorialCases(1);
  }

  // --------------------------------------------------- findings and example

  lemma {:induction false} ZerosTail(s: string, i: nat, result: nat, fixed: bool)
    requires i <= |s| && result <= MaxULL
    requires forall k | i <= k < |s| :: s[k] == '0'
    ensures DecodeFrom(s, i, result, fixed) == Number(result)
    decreases |s| - i
  {
    if i < |s| {
      ZerosTail(s, i + 1, result, fixed);
    }
  }

  /** A nine at position 20: 9 * 20! exceeds 64 bits, and as written the
      product wraps to 3449373999880208384, which is returned as the value
      instead of the too-large error the corrected decoder reports. */
  lemma NineAtTwentyAsWritten()
    ensures var s := "9" + Repeat('0', 19);
            |s| == 20 && WellFormed(s) && SValue(s) > MaxULL &&
            FactoradicToDecimal(s, false) == Number(3449373999880208384) &&
            FactoradicToDecimal(s, true) == Failed(TooLarge)
  {
    var s := "9" + Repeat('0', 19);
    FactorialCases(20);
    FactTwenty();
    assert (9 * Fact(20)) % Modulus == 3449373999880208384;
    ZerosTail(s, 1, 3449373999880208384, false);
    SValueHead(s, 0);
    WellFormedSuffix(s, 0);
    assert s[0..] == s;
    CheckedMeaning(s);
  }

  /** A digit at position 21 or beyond: factorial has overflowed to 0, so
      as written the digit adds nothing and "1" followed by twenty zeros
      decodes to 0; the corrected decoder reports it as too large. */
  lemma PositionTwentyOneAsWritten()
    ensures var s := "1" + Repeat('0', 20);
            |s| == 21 && WellFormed(s) &&
            FactoradicToDecimal(s, false) == Number(0) &&
            FactoradicToDecimal(s, true) == Failed(TooLarge)
  {
    var s := "1" + Repeat('0', 20);
    FactorialCases(21);
    FactTwenty();
    ZerosTail(s, 1, 0, false);
    SValueHead(s, 0);
    WellFormedSuffix(s, 0);
    assert s[0..] == s;
    CheckedMeaning(s);
  }

  function Repeat(c: char, k: nat): (r: string)
    ensures |r| == k && forall i | 0 <= i < k :: r[i] == c
  {
    if k == 0 then [] else [c] + Repeat(c, k - 1)
  }

  lemma SmallFactorials()
    ensures Fact(2) == 2 && Fact(3) == 6 && Fact(4) == 24 && Fact(5) == 120 && Fact(6) == 720
    ensures Factorial(2) == 2 && Factorial(3) == 6 && Factorial(4) == 24 && Factorial(5) == 120
    ensures Factorial(1) == 1 && Factorial(6) == 720
  {
    FactorialCases(1);
    FactorialCases(2);
    FactorialCases(3);
    FactorialCases(4);
    FactorialCases(5);
    FactorialCases(6);
  }

  /** One level of the digit extraction: the digit at position pos is the
      quotient by pos!, and the rest is extracted from the remainder. */
  lemma ExtractStep(pos: nat, remaining: nat, digit: nat, rest: seq<nat>)
    requires 0 < pos <= 20
    requires Factorial(pos) > 0 && remaining / Factorial(pos) == digit <= pos
    requires Extract(pos - 1, remaining % Factorial(pos)) == Some(rest)
    ensures Extract(pos, remaining) == Some([digit] + rest)
  {
  }

  /** The help text's example "463 = 34201" is not what the program does:
      463 converts to 34101 ... */
  lemma UsageExample()
    ensures ToFactoradic(463) == Some("34101")
  {
    SmallFactorials();
    assert MaxPos(463) == 5;
    ExtractStep(1, 1, 1, []);
    assert [1] + [] == [1];
    ExtractStep(2, 1, 0, [1]);
    assert [0] + [1] == [0, 1];
    ExtractStep(3, 7, 1, [0, 1]);
    assert [1] + [0, 1] == [1, 0, 1];
    ExtractStep(4, 103, 4, [1, 0, 1]);
    assert [4] + [1, 0, 1] == [4, 1, 0, 1];
    ExtractStep(5, 463, 3, [4, 1, 0, 1]);
    assert [3] + [4, 1, 0, 1] == [3, 4, 1, 0, 1];
    assert DigitText([3, 4, 1, 0, 1]) == "34101";
  }

  /** ... and 34201 decodes to 469. */
  lemma UsageExampleBack()
    ensures FactoradicToDecimal("34201", false) == Number(469)
  {
    SmallFactorials();
    var s := "34201";
    assert WellFormed(s);
    assert SValue(s) == 469 by {
      assert s[1..] == "4201" && s[2..] == "201" && s[3..] == "01" && s[4..] == "1" && s[5..] == "";
    }
    AsWrittenAgrees(s);
  }

  // ---------------------------------------------------------- process_input

  /** Characters that end the number on a line: a decimal point or comma,
      or the end of the C string. */
  predicate Stop(c: char) { c == '.' || c == ',' || c == '\0' }

  /** The part of a line before the first stop character. */
  function Before(line: string): (r: string)
    ensures |r| <= |line| && forall i | 0 <= i < |r| :: !Stop(r[i])
  {
    if |line| == 0 || Stop(line[0]) then [] else [line[0]] + Before(line[1..])
  }

  function DigitsOnly(s: string): (r: string)
    ensures AllDigits(r)
  {
    if |s| == 0 then [] else if IsDigit(s[0]) then [s[0]] + DigitsOnly(s[1..]) else DigitsOnly(s[1..])
  }

  function Take(s: string, n: nat): (r: string)
    ensures |r| <= n
  {
    if |s| <= n then s else s[..n]
  }

  /** process_input's cleaning loop with room for `room` more digits. */
  function CleanFrom(line: string, room: nat): string
    decreases |line|
  {
    if |line| == 0 || room == 0 || Stop(line[0]) then []
    else if IsDigit(line[0]) then [line[0]] + CleanFrom(line[1..], room - 1)
    else CleanFrom(line[1..], room)
  }

  /** The clean buffer holds 255 digits and a terminator. */
  function Clean(line: string): string {
    CleanFrom(line, 255)
  }

  /** Cleaning keeps the digits before the first '.' or ',', at most 255 of
      them. */
  lemma {:induction false} CleanFromMeaning(line: string, room: nat)
    ensures CleanFrom(line, room) == Take(DigitsOnly(Before(line)), room)
    decreases |line|
  {
    if |line| > 0 && room > 0 && !Stop(line[0]) {
      CleanFromMeaning(line[1..], if IsDigit(line[0]) then room - 1 else room);
      var b := Before(line);
      assert b[1..] == Before(line[1..]);
      if IsDigit(line[0]) {
        var d := DigitsOnly(Before(line[1..]));
        assert DigitsOnly(b) == [line[0]] + d;
        if |d| > room - 1 {
          assert ([line[0]] + d)[..room] == [line[0]] + d[..room - 1];
        }
      }
    } else if |line| > 0 && room == 0 {
      assert Take(DigitsOnly(Before(line)), 0) == [];
    }
  }

  lemma CleanMeaning(line: string)
    ensures Clean(line) == Take(DigitsOnly(Before(line)), 255)
  {
    CleanFromMeaning(line, 255);
  }

  /** strtoull on a digit string: the value, saturated at the largest
      unsigned long long. */
  function Strtoull(s: string): (r: nat)
    requires AllDigits(s)
    ensures r <= MaxULL
  {
    if Value(s) > MaxULL then MaxULL else Value(s)
  }

  /** What one line produces on standard output. Error messages go to
      standard error and are not modelled. */
  datatype LineResult = Printed(text: string) | NoDigits | Rejected

  function ProcessLine(line: string, decode: bool, fixed: bool): LineResult {
    CleanMeaning(line);
    var c := Clean(line);
    if |c| == 0 then NoDigits
    else if decode then
      match FactoradicToDecimal(c, fixed)
      case Number(v) => Printed(Show(v) + "\n")
      case Failed(_) => Rejected
    else
      match ToFactoradic(Strtoull(c))
      case Some(t) => Printed(t + "\n")
      case None => Rejected
  }

  /** In the converting direction every line with a digit prints the
      factoradic form of its (saturated) number; a line without one prints
      nothing. */
  lemma ProcessLineConverts(line: string, fixed: bool)
    ensures var d := DigitsOnly(Before(line));
            d == [] <==> ProcessLine(line, false, fixed) == NoDigits
    ensures ProcessLine(line, false, fixed) != Rejected
  {
    CleanMeaning(line);
    var c := Clean(line);
    if |c| > 0 {
      CleanMeaning(line);
      var n := Strtoull(c);
      if n > 0 {
        var ds := ToFactoradicMeaning(n);
      }
    }
  }
}
