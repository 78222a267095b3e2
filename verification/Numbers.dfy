/** Parsing and formatting of 64-bit numbers in bases 2 to 16. */
module Numbers {
  import opened Bytes

  // ----- Numerals and their values -----

  /** The value of a hexadecimal digit, or -1. */
  function DigitValue(c: char): (r: int)
    ensures -1 <= r < 16
  {
    if '0' <= c <= '9' then c as int - '0' as int
    else if 'a' <= c <= 'f' then c as int - 'a' as int + 10
    else if 'A' <= c <= 'F' then c as int - 'A' as int + 10
    else -1
  }

  predicate Blank(c: char) { c == ' ' || c == '\t' }

  ghost predicate AllDigits(s: string, base: nat) {
    forall i :: 0 <= i < |s| ==> 0 <= DigitValue(s[i]) < base
  }

  function Step(value: nat, base: nat, digit: nat): nat { value * base + digit }

  /** The number a digit string denotes. */
  function Value(s: string, base: nat): (r: nat)
    requires forall i :: 0 <= i < |s| ==> 0 <= DigitValue(s[i])
  {
    if s == [] then 0 else Step(Value(s[..|s| - 1], base), base, DigitValue(s[|s| - 1]))
  }

  function SkipBlanks(text: string, i: nat): (r: nat)
    requires i <= |text|
    ensures i <= r <= |text|
    ensures forall k :: i <= k < r ==> Blank(text[k])
    ensures r < |text| ==> !Blank(text[r])
    decreases |text| - i
  {
    if i < |text| && Blank(text[i]) then SkipBlanks(text, i + 1) else i
  }

  function SkipDigits(text: string, i: nat): (r: nat)
    requires i <= |text|
    ensures i <= r <= |text|
    ensures forall k :: i <= k < r ==> DigitValue(text[k]) >= 0
    ensures r < |text| ==> DigitValue(text[r]) < 0
    decreases |text| - i
  {
    if i < |text| && DigitValue(text[i]) >= 0 then SkipDigits(text, i + 1) else i
  }

  predicate HexPrefix(text: string, i: nat) {
    i + 2 <= |text| && text[i] == '0' && (text[i + 1] == 'x' || text[i + 1] == 'X')
  }

  /** The base in force: the given one, or the one the prefix selects. */
  function EffectiveBase(text: string, base: nat): nat {
    if base != 0 then base else if HexPrefix(text, SkipBlanks(text, 0)) then 16 else 10
  }

  function First(text: string, base: nat): (r: nat)
    ensures r <= |text|
  {
    var i := SkipBlanks(text, 0);
    if base == 0 && HexPrefix(text, i) then i + 2 else i
  }

  function Last(text: string, base: nat): (r: nat)
    ensures First(text, base) <= r <= |text|
  {
    SkipDigits(text, First(text, base))
  }

  /** Blanks, an optional prefix, at least one digit of the base, blanks, and nothing else. */
  ghost predicate Numeral(text: string, base: nat) {
    && 2 <= EffectiveBase(text, base) <= 16
    && First(text, base) < Last(text, base)
    && AllDigits(text[First(text, base)..Last(text, base)], EffectiveBase(text, base))
    && SkipBlanks(text, Last(text, base)) == |text|
  }

  ghost function NumeralValue(text: string, base: nat): nat
    requires Numeral(text, base)
  {
    Value(text[First(text, base)..Last(text, base)], EffectiveBase(text, base))
  }

  lemma StepGrows(value: nat, base: nat, digit: nat)
    requires base > 0
    ensures Step(value, base, digit) >= value
  {
  }

  lemma {:induction false} ValueGrows(s: string, n: nat, base: nat)
    requires n <= |s| && base > 0 && forall i :: 0 <= i < |s| ==> 0 <= DigitValue(s[i])
    ensures Value(s[..n], base) <= Value(s, base)
    decreases |s|
  {
    hide Step, DigitValue;
    if n < |s| {
      var shorter := s[..|s| - 1];
      ValueGrows(shorter, n, base);
      assert shorter[..n] == s[..n];
      StepGrows(Value(shorter, base), base, DigitValue(s[|s| - 1]));
    } else {
      assert s[..n] == s;
    }
  }

  lemma MulMonotone(a: nat, b: nat, c: nat)
    requires a <= b
    ensures a * c <= b * c
  {
  }

  lemma DivideBounds(x: nat, base: nat)
    requires base > 0
    ensures x / base * base <= x < (x / base + 1) * base
  {
  }

  /** The division test is exactly the test for overflow of the next step. */
  lemma StepFits(result: U64, digit: nat, base: nat)
    requires 2 <= base && digit < base <= 16
    ensures result > (UINT64_MAX - digit) / base <==> Step(result, base, digit) > UINT64_MAX
  {
    var q := (UINT64_MAX - digit) / base;
    DivideBounds(UINT64_MAX - digit, base);
    if result > q {
      MulMonotone(q + 1, result, base);
    } else {
      MulMonotone(result, q, base);
    }
  }

  method SkipBlanksFrom(text: string, from: nat) returns (at: nat)
    requires from <= |text|
    ensures at == SkipBlanks(text, from)
  {
    at := from;
    while at < |text| && Blank(text[at])
      invariant from <= at <= |text| && SkipBlanks(text, at) == SkipBlanks(text, from)
    {
      at := at + 1;
    }
  }

  lemma NoDigits(digits: string, base: nat)
    requires base > 0
    ensures digits[..0] == [] && AllDigits([], base) && Value([], base) == 0
  {
  }

  /** One more digit: what it does to the prefix, and what the prefix says about the whole. */
  lemma OneMoreDigit(digits: string, n: nat, base: nat)
    requires n < |digits| && base > 0 && forall i :: 0 <= i < |digits| ==> 0 <= DigitValue(digits[i])
    requires AllDigits(digits[..n], base)
    ensures AllDigits(digits[..n + 1], base) <==> DigitValue(digits[n]) < base
    ensures AllDigits(digits, base) ==> DigitValue(digits[n]) < base
    ensures Value(digits[..n + 1], base) == Step(Value(digits[..n], base), base, DigitValue(digits[n]))
    ensures Value(digits[..n + 1], base) <= Value(digits, base)
  {
    hide Step, DigitValue;
    assert digits[..n + 1][..n] == digits[..n] && digits[..n + 1][n] == digits[n];
    ValueGrows(digits, n + 1, base);
  }

  /** Reads digits until something else comes; fails on a digit of a larger base and on overflow. */
  method ReadDigits(text: string, from: nat, base: nat) returns (ok: bool, result: U64, at: nat)
    requires from <= |text| && 2 <= base <= 16
    ensures ok <==>
      && AllDigits(text[from..SkipDigits(text, from)], base)
      && Value(text[from..SkipDigits(text, from)], base) <= UINT64_MAX
    ensures ok ==> at == SkipDigits(text, from) && result == Value(text[from..at], base)
  {
    hide Step, DigitValue, AllDigits, Value;
    ghost var end := SkipDigits(text, from);
    ghost var digits := text[from..end];
    NoDigits(digits, base);
    result, at := 0, from;
    while at < |text| && DigitValue(text[at]) >= 0
      invariant from <= at <= end && SkipDigits(text, at) == end
      invariant AllDigits(digits[..at - from], base)
      invariant result == Value(digits[..at - from], base)
    {
      var digit := DigitValue(text[at]);
      ghost var n := at - from;
      assert digits[n] == text[at];
      OneMoreDigit(digits, n, base);
      if digit >= base {
        return false, 0, at;
      }
      StepFits(result, digit, base);
      if result > (UINT64_MAX - digit) / base {
        return false, 0, at;
      }
      result := Step(result, base, digit);
      at := at + 1;
    }
    assert digits[..at - from] == digits;
    ok := true;
  }

  /** Accepts exactly the numerals whose value fits in 64 bits, and returns that value. */
  method ParseU64(text: string, base: nat) returns (ok: bool, value: U64)
    requires '\0' !in text
    ensures ok <==> Numeral(text, base) && NumeralValue(text, base) <= UINT64_MAX
    ensures ok ==> value == NumeralValue(text, base)
  {
    hide Value, AllDigits, SkipBlanks, SkipDigits;
    value := 0;
    var at := SkipBlanksFrom(text, 0);
    var actual := base;
    if base == 0 {
      if HexPrefix(text, at) {
        actual := 16;
        at := at + 2;
      } else {
        actual := 10;
      }
    }
    if actual < 2 || actual > 16 || at == |text| {
      return false, 0;
    }
    var result, end;
    ok, result, end := ReadDigits(text, at, actual);
    if !ok {
      return false, 0;
    }
    var rest := SkipBlanksFrom(text, end);
    if rest != |text| || end == at {
      return false, 0;
    }
    value := result;
  }

  // ----- Formatting -----

  function DigitChar(d: nat, uppercase: bool): (c: char)
    requires d < 16
    ensures DigitValue(c) == d && Plain(c)
  {
    if uppercase then "0123456789ABCDEF"[d] else "0123456789abcdef"[d]
  }

  function Quotient(value: nat, base: nat): (q: nat)
    requires base >= 2
    ensures value > 0 ==> q < value
    ensures value < base <==> q == 0
  {
    value / base
  }

  function Remainder(value: nat, base: nat): (r: nat)
    requires base >= 2
    ensures r < base
    ensures Step(Quotient(value, base), base, r) == value
  {
    value % base
  }

  predicate Plain(c: char) { !Blank(c) && c != '\0' && c != 'x' && c != 'X' }

  /** The digits of a number, most significant first, without leading zeros. */
  function Digits(value: nat, base: nat, uppercase: bool): (s: string)
    requires 2 <= base <= 16
    ensures s != []
  {
    (if Quotient(value, base) == 0 then [] else Digits(Quotient(value, base), base, uppercase))
    + [DigitChar(Remainder(value, base), uppercase)]
  }

  lemma ValueAppend(s: string, c: char, base: nat)
    requires DigitValue(c) >= 0 && forall i :: 0 <= i < |s| ==> 0 <= DigitValue(s[i])
    ensures Value(s + [c], base) == Step(Value(s, base), base, DigitValue(c))
  {
  }

  lemma {:induction false} DigitsDenote(value: nat, base: nat, uppercase: bool)
    requires 2 <= base <= 16
    ensures AllDigits(Digits(value, base, uppercase), base)
    ensures Value(Digits(value, base, uppercase), base) == value
    ensures forall i :: 0 <= i < |Digits(value, base, uppercase)| ==> Plain(Digits(value, base, uppercase)[i])
    decreases value
  {
    hide Step, DigitValue, DigitChar, Plain, Quotient, Remainder;
    var q := Quotient(value, base);
    var front := if q == 0 then [] else Digits(q, base, uppercase);
    if q != 0 {
      DigitsDenote(q, base, uppercase);
    }
    assert Value(front, base) == q;
    ValueAppend(front, DigitChar(Remainder(value, base), uppercase), base);
  }

  lemma {:induction false} NoBlanks(text: string, i: nat)
    requires i <= |text| && forall k :: i <= k < |text| ==> !Blank(text[k])
    ensures SkipBlanks(text, i) == i
  {
  }

  /** A string of digits of the base is a numeral with the expected value. */
  lemma PlainNumeral(text: string, base: nat, asked: nat)
    requires 2 <= base <= 16 && (asked == base || (asked == 0 && base == 10))
    requires text != [] && AllDigits(text, base) && forall i :: 0 <= i < |text| ==> Plain(text[i])
    ensures Numeral(text, asked) && NumeralValue(text, asked) == Value(text, base)
  {
    hide DigitValue, Value;
    NoBlanks(text, 0);
    assert First(text, asked) == 0 && EffectiveBase(text, asked) == base;
    assert SkipDigits(text, 0) == |text|;
    assert text[0..|text|] == text;
  }

  /** Parsing inverts formatting, in the same base and, for decimal, without being told the base. */
  lemma FormatParses(value: U64, base: nat, uppercase: bool, asked: nat)
    requires 2 <= base <= 16 && (asked == base || (asked == 0 && base == 10))
    ensures
      var text := Digits(value, base, uppercase);
      Numeral(text, asked) && NumeralValue(text, asked) == value
  {
    DigitsDenote(value, base, uppercase);
    PlainNumeral(Digits(value, base, uppercase), base, asked);
  }

  function Pow2(n: nat): (r: nat)
    ensures r > 0
  {
    if n == 0 then 1 else 2 * Pow2(n - 1)
  }

  lemma Pow2Of64()
    ensures Pow2(64) == UINT64_MAX + 1
  {
    assert Pow2(8) == 256;
    assert Pow2(16) == 65536;
    assert Pow2(24) == 0x100_0000;
    assert Pow2(32) == 0x1_0000_0000;
    assert Pow2(40) == 0x100_0000_0000;
    assert Pow2(48) == 0x1_0000_0000_0000;
    assert Pow2(56) == 0x100_0000_0000_0000;
  }

  lemma Halved(rest: nat, base: nat, n: nat)
    requires base >= 2 && n > 0 && rest < Pow2(n)
    ensures Quotient(rest, base) < Pow2(n - 1)
  {
  }

  /** Every value has at most 64 digits, so the 65-character scratch buffer never cuts one off. */
  method ReverseDigits(value: U64, base: nat, uppercase: bool) returns (reverse: array<char>, count: nat)
    requires 2 <= base <= 16
    ensures fresh(reverse) && reverse.Length == 65 && 1 <= count <= 64
    ensures |Digits(value, base, uppercase)| == count
    ensures forall k :: 0 <= k < count ==> reverse[count - k - 1] == Digits(value, base, uppercase)[k]
  {
    hide Digits, DigitChar, Pow2, Quotient, Remainder, Front;
    reverse := new char[65](_ => '\0');
    Pow2Of64();
    Halved(value, base, 64);
    reverse[0] := DigitChar(Remainder(value, base), uppercase);
    count := 1;
    var rest := Quotient(value, base);
    ghost var tail := [DigitChar(Remainder(value, base), uppercase)];
    DigitsFront(value, base, uppercase);
    while rest != 0 && count < 65
      invariant 1 <= count <= 64 && 0 <= rest < Pow2(64 - count)
      invariant |tail| == count && forall k :: 0 <= k < count ==> reverse[k] == tail[count - k - 1]
      invariant Digits(value, base, uppercase) == Front(rest, base, uppercase) + tail
      decreases rest
    {
      NotLast(rest, count);
      Halved(rest, base, 64 - count);
      FrontStep(rest, base, uppercase, tail);
      var c := DigitChar(Remainder(rest, base), uppercase);
      reverse[count] := c;
      tail := [c] + tail;
      rest := Quotient(rest, base);
      count := count + 1;
    }
    assert Front(0, base, uppercase) == [] by { NothingInFront(base, uppercase); }
  }

  function Front(rest: nat, base: nat, uppercase: bool): string
    requires 2 <= base <= 16
  {
    if rest == 0 then [] else Digits(rest, base, uppercase)
  }

  lemma NothingInFront(base: nat, uppercase: bool)
    requires 2 <= base <= 16
    ensures Front(0, base, uppercase) == []
  {
  }

  lemma DigitsFront(value: nat, base: nat, uppercase: bool)
    requires 2 <= base <= 16
    ensures Digits(value, base, uppercase) ==
            Front(Quotient(value, base), base, uppercase) + [DigitChar(Remainder(value, base), uppercase)]
  {
  }

  lemma FrontStep(rest: nat, base: nat, uppercase: bool, tail: string)
    requires 2 <= base <= 16 && rest != 0
    ensures Front(rest, base, uppercase) + tail ==
            Front(Quotient(rest, base), base, uppercase) + ([DigitChar(Remainder(rest, base), uppercase)] + tail)
  {
  }

  lemma NotLast(rest: nat, count: nat)
    requires count <= 64 && 0 < rest < Pow2(64 - count)
    ensures count < 64
  {
  }

  function Min(a: nat, b: nat): nat { if a < b then a else b }

  /** What a bounded buffer holds after a formatting call: as much of the text as fits, then a NUL. */
  ghost predicate Holds(output: seq<char>, from: nat, capacity: nat, text: string, written: nat)
    requires capacity > 0 && from + capacity <= |output|
  {
    && written == Min(|text|, capacity - 1)
    && (forall k :: from <= k < from + written ==> output[k] == text[k - from])
    && output[from + written] == '\0'
  }

  method FormatU64(output: array<char>, from: nat, capacity: nat, value: U64, base: nat, uppercase: bool)
    returns (written: nat)
    requires from + capacity <= output.Length
    modifies output
    ensures capacity == 0 || base < 2 || base > 16 ==> written == 0 && output[..] == old(output[..])
    ensures capacity != 0 && 2 <= base <= 16 ==>
      Holds(output[..], from, capacity, Digits(value, base, uppercase), written)
    ensures forall i :: 0 <= i < output.Length && !(from <= i < from + capacity) ==> output[i] == old(output[i])
  {
    if capacity == 0 || base < 2 || base > 16 {
      return 0;
    }
    hide Digits;
    var reverse, count := ReverseDigits(value, base, uppercase);
    ghost var text := Digits(value, base, uppercase);
    written := if count < capacity - 1 then count else capacity - 1;
    CopyOut(output, from, reverse, count, written, text);
    output[from + written] := '\0';
  }

  method CopyOut(output: array<char>, from: nat, reverse: array<char>, count: nat, written: nat, ghost text: string)
    requires output != reverse && written <= count <= reverse.Length && from + written <= output.Length
    requires |text| == count && forall k :: 0 <= k < count ==> reverse[count - k - 1] == text[k]
    modifies output
    ensures forall k :: from <= k < from + written ==> output[k] == text[k - from]
    ensures forall k :: 0 <= k < output.Length && !(from <= k < from + written) ==> output[k] == old(output[k])
  {
    var i := 0;
    while i < written
      invariant 0 <= i <= written
      invariant forall k :: from <= k < from + i ==> output[k] == text[k - from]
      invariant forall k :: 0 <= k < output.Length && !(from <= k < from + i) ==> output[k] == old(output[k])
    {
      output[from + i] := reverse[count - i - 1];
      i := i + 1;
    }
  }

  /** The sign and the digits of a signed number. */
  function SignedDigits(value: int): string {
    if value >= 0 then Digits(value, 10, false) else "-" + Digits(-value, 10, false)
  }

  method FormatI64(output: array<char>, capacity: nat, value: int) returns (written: nat)
    requires capacity <= output.Length && -0x8000_0000_0000_0000 <= value < 0x8000_0000_0000_0000
    modifies output
    ensures capacity == 0 ==> written == 0 && output[..] == old(output[..])
    ensures capacity != 0 ==> Holds(output[..], 0, capacity, SignedDigits(value), written)
  {
    hide Digits;
    if capacity == 0 {
      return 0;
    }
    if value >= 0 {
      written := FormatU64(output, 0, capacity, value, 10, false);
      return;
    }
    if capacity < 2 {
      output[0] := '\0';
      return 0;
    }
    output[0] := '-';
    var magnitude: U64 := -(value + 1) + 1;
    var rest := FormatU64(output, 1, capacity - 1, magnitude, 10, false);
    written := 1 + rest;
  }
}
