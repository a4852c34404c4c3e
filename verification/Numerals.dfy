/** The numerals of integers, and which texts sym_string_valid takes for numbers. */
module Numerals {
  import opened Options
  import opened Expr
  import opened ConfigLines

  const LOWER: string := "0123456789abcdef"
  const UPPER: string := "0123456789ABCDEF"

  type Base = b: nat | b == 10 || b == 16 witness 10

  /** The numeral of a number in base ten or sixteen, without leading zeros. */
  function Digits(n: nat, base: Base): (s: string)
    ensures s != ""
  {
    if n < base then [LOWER[n]] else Digits(n / base, base) + [LOWER[n % base]]
  }

  function Numeral(z: int): string {
    if z < 0 then "-" + Digits(-z, 10) else Digits(z, 10)
  }

  /** The value of a digit in either case; nothing else has one. */
  function DigitValue(c: char): Option<nat> {
    if '0' <= c <= '9' then Some(c as nat - '0' as nat)
    else if 'a' <= c <= 'f' then Some(10 + c as nat - 'a' as nat)
    else if 'A' <= c <= 'F' then Some(10 + c as nat - 'A' as nat)
    else None
  }

  /** The number that a nonempty text of digits denotes; nothing for any other text. */
  function Decode(s: string, base: Base): Option<nat> {
    if s == "" then None
    else
      var d, front := DigitValue(s[|s| - 1]), s[..|s| - 1];
      if d.None? || d.value >= base then None
      else if front == "" then d
      else match Decode(front, base)
        case None => None
        case Some(n) => Some(base * n + d.value)
  }

  lemma {:induction false} DigitOf(n: nat)
    requires n < 16
    ensures DigitValue(LOWER[n]) == DigitValue(UPPER[n]) == Some(n)
  {
  }

  lemma {:induction false} DecodeSnoc(s: string, d: nat, base: Base)
    requires d < base
    ensures Decode(s + [LOWER[d]], base) ==
              if s == "" then Some(d)
              else if Decode(s, base).None? then None else Some(base * Decode(s, base).value + d)
  {
    var t := s + [LOWER[d]];
    assert t[..|t| - 1] == s && t[|t| - 1] == LOWER[d];
    DigitOf(d);
  }

  lemma {:induction false} DigitsOf(n: nat, base: Base)
    ensures n < base ==> Digits(n, base) == [LOWER[n]]
    ensures n >= base ==> n / base < n && Digits(n, base) == Digits(n / base, base) + [LOWER[n % base]]
    ensures base * (n / base) + n % base == n
  {
    hide Digits;
    if n >= base {
      DigitsSnoc(n, base);
    } else {
      DigitsOne(n, base);
    }
  }

  lemma {:induction false} DigitsOne(n: nat, base: Base)
    requires n < base
    ensures Digits(n, base) == [LOWER[n]]
  {
  }

  lemma {:induction false} DigitsSnoc(n: nat, base: Base)
    requires n >= base
    ensures Digits(n, base) == Digits(n / base, base) + [LOWER[n % base]]
  {
  }

  /** A numeral denotes its number. */
  lemma {:induction false} DecodeDigits(n: nat, base: Base)
    ensures Decode(Digits(n, base), base) == Some(n)
  {
    hide Decode, Digits;
    DigitsOf(n, base);
    if n < base {
      DecodeSnoc("", n, base);
      assert "" + [LOWER[n]] == [LOWER[n]];
    } else {
      var q, d := n / base, n % base;
      DecodeDigits(q, base);
      DecodeSnoc(Digits(q, base), d, base);
    }
  }

  lemma {:induction false} DecodeLast(s: string, base: Base)
    requires s != ""
    ensures var d, front := DigitValue(s[|s| - 1]), s[..|s| - 1];
            && (Decode(s, base).Some? <==>
                  d.Some? && d.value < base && (front == "" || Decode(front, base).Some?))
            && (Decode(s, base).Some? ==>
                  Decode(s, base).value == if front == "" then d.value else base * Decode(front, base).value + d.value)
  {
  }

  lemma {:induction false} DigitHasValue(c: char)
    ensures IsDigit(c) <==> DigitValue(c).Some? && DigitValue(c).value < 10
    ensures IsHexDigit(c) <==> DigitValue(c).Some? && DigitValue(c).value < 16
    ensures IsDigit(c) ==> LOWER[DigitValue(c).value] == c && (DigitValue(c).value == 0 <==> c == '0')
  {
  }

  lemma {:induction false} DigitsLast(s: string)
    requires s != ""
    ensures AllDigits(s) <==> AllDigits(s[..|s| - 1]) && IsDigit(s[|s| - 1])
    ensures AllHexDigits(s) <==> AllHexDigits(s[..|s| - 1]) && IsHexDigit(s[|s| - 1])
  {
    assert s == s[..|s| - 1] + [s[|s| - 1]];
  }

  /** A text that denotes a number consists of digits. */
  lemma {:induction false} DecodeIff(s: string)
    ensures Decode(s, 10).Some? <==> s != "" && AllDigits(s)
    ensures Decode(s, 16).Some? <==> s != "" && AllHexDigits(s)
  {
    if s != "" {
      hide Decode, DigitValue, IsDigit, IsHexDigit, AllDigits, AllHexDigits;
      DecodeIff(s[..|s| - 1]);
      DecodeLast(s, 10);
      DecodeLast(s, 16);
      DigitHasValue(s[|s| - 1]);
      DigitsLast(s);
      if |s| == 1 {
        NoDigits(s[..|s| - 1]);
      }
    }
  }

  lemma {:induction false} NoDigits(s: string)
    requires s == ""
    ensures AllDigits(s) && AllHexDigits(s)
  {
  }

  /** Without a leading zero, a text of decimal digits is the numeral of the number it denotes. */
  lemma {:induction false} DigitsDecode(s: string)
    requires Decode(s, 10).Some? && (s[0] == '0' ==> |s| == 1)
    ensures Digits(Decode(s, 10).value, 10) == s
    ensures s[0] != '0' ==> Decode(s, 10).value > 0
  {
    assert s != "";
    hide Decode, Digits, DigitValue, IsDigit;
    var front, last := s[..|s| - 1], s[|s| - 1];
    DecodeLast(s, 10);
    DigitHasValue(last);
    var d := DigitValue(last).value;
    assert s == front + [last] && [LOWER[d]] == [last];
    if front == "" {
      DigitsOne(d, 10);
    } else {
      DigitsDecode(front);
      DigitsAppend(Decode(front, 10).value, d);
    }
  }

  lemma {:induction false} DigitsAppend(n: nat, d: nat)
    requires n > 0 && d < 10
    ensures Digits(10 * n + d, 10) == Digits(n, 10) + [LOWER[d]]
  {
    assert (10 * n + d) / 10 == n && (10 * n + d) % 10 == d;
  }

  lemma {:induction false} DigitsStart(n: nat)
    ensures Digits(n, 10)[0] == '0' ==> n == 0
    ensures Digits(n, 10)[0] != '-'
  {
    if n >= 10 {
      DigitsStart(n / 10);
    }
  }

  lemma {:induction false} DigitsValid(n: nat)
    ensures Valid(Integer, Digits(n, 10)) && Valid(Integer, "-" + Digits(n, 10))
  {
    var s := Digits(n, 10);
    DecodeDigits(n, 10);
    DecodeIff(s);
    DigitsStart(n);
    if n == 0 {
      assert s == "0";
    }
    assert ("-" + s)[1..] == s;
  }

  lemma {:induction false} ValidDigits(s: string)
    requires Valid(Integer, s)
    ensures s == "-0" || exists z: int :: s == Numeral(z)
  {
    hide Decode;
    var t := if s[0] == '-' then s[1..] else s;
    DecodeIff(t);
    DigitsDecode(t);
    var n: int := Decode(t, 10).value;
    if s[0] != '-' {
      assert s == Numeral(n);
    } else if n > 0 {
      assert s == "-" + t == Numeral(-n);
    } else {
      assert s == "-" + t && t == Digits(0, 10);
    }
  }

  /** An integer is valid if it is the numeral of one, or minus zero. */
  lemma {:induction false} IntegerIff(s: string)
    ensures Valid(Integer, s) <==> s == "-0" || exists z: int :: s == Numeral(z)
  {
    if Valid(Integer, s) {
      ValidDigits(s);
    } else if s == "-0" {
      DigitsValid(0);
      assert false;
    } else if z: int :| s == Numeral(z) {
      DigitsValid(if z < 0 then -z else z);
      assert false;
    }
  }

  lemma {:induction false} ValidHexDigits(s: string) returns (t: string)
    requires Valid(Hexadecimal, s)
    ensures Decode(t, 16).Some? && (s == t || s == "0x" + t || s == "0X" + t)
  {
    t := if |s| >= 2 && s[0] == '0' && (s[1] == 'x' || s[1] == 'X') then s[2..] else s;
    DecodeIff(t);
  }

  lemma {:induction false} HexDigitsValid(t: string)
    requires Decode(t, 16).Some?
    ensures Valid(Hexadecimal, t) && Valid(Hexadecimal, "0x" + t) && Valid(Hexadecimal, "0X" + t)
  {
    hide Decode;
    DecodeIff(t);
    assert |t| >= 2 ==> IsHexDigit(t[1]);
    assert ("0x" + t)[2..] == t && ("0X" + t)[2..] == t;
  }

  /** A hexadecimal number is valid if its digits denote a number, whether 0x comes before them or
      not; leading zeros and both cases are allowed. */
  lemma {:induction false} HexadecimalIff(s: string)
    ensures Valid(Hexadecimal, s) <==>
              exists t: string :: Decode(t, 16).Some? && (s == t || s == "0x" + t || s == "0X" + t)
  {
    if Valid(Hexadecimal, s) {
      var t := ValidHexDigits(s);
    } else if t: string :| Decode(t, 16).Some? && (s == t || s == "0x" + t || s == "0X" + t) {
      HexDigitsValid(t);
      assert false;
    }
  }

  /** Every integer is written by its numeral and read back, if the line fits the buffer. */
  lemma {:induction false} IntegerReadBack(name: string, z: int, rest: string, table: map<string, SymbolKind>)
    requires IsName(name) && name in table && table[name].Integer?
    ensures var line := WriteLine(name, TextValue(Numeral(z)), Integer);
            ReadLine(Fgets(line + rest), table) == Assign(name, TextValue(Numeral(z))) <==> |line| <= LINE_MAX + 1
  {
    IntegerIff(Numeral(z));
    NumberReadBack(name, Numeral(z), rest, table);
  }

  /** The same for every number in base sixteen, with and without 0x. */
  lemma {:induction false} HexadecimalReadBack(name: string, prefix: string, n: nat, rest: string,
                                               table: map<string, SymbolKind>)
    requires IsName(name) && name in table && table[name].Hexadecimal? && prefix in ["", "0x", "0X"]
    ensures var s := prefix + Digits(n, 16);
            var line := WriteLine(name, TextValue(s), Hexadecimal);
            ReadLine(Fgets(line + rest), table) == Assign(name, TextValue(s)) <==> |line| <= LINE_MAX + 1
  {
    var s := prefix + Digits(n, 16);
    DecodeDigits(n, 16);
    assert prefix == "" ==> s == Digits(n, 16);
    HexadecimalIff(s);
    NumberReadBack(name, s, rest, table);
  }
}
