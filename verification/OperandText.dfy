/**
 Numbers in the operand text of an instruction. The analysis takes the first one for the branch target, wherever the
 disassembler wrote it.
 */
module OperandText {
  import opened Wrappers
  import opened Numerals

  predicate IsHexDigit(c: char) { IsDigit(c) || 'a' <= c <= 'f' || 'A' <= c <= 'F' }

  function HexDigitValue(c: char): (v: nat)
    requires IsHexDigit(c)
    ensures v < 16
  {
    if IsDigit(c) then c as int - '0' as int
    else if 'a' <= c <= 'f' then 10 + c as int - 'a' as int
    else 10 + c as int - 'A' as int
  }

  predicate HexDigits(s: string) { s != "" && forall i :: 0 <= i < |s| ==> IsHexDigit(s[i]) }

  function ParseHex(s: string): nat
    requires forall i :: 0 <= i < |s| ==> IsHexDigit(s[i])
  {
    if s == "" then 0 else 16 * ParseHex(s[..|s| - 1]) + HexDigitValue(s[|s| - 1])
  }

  /** The longest run of digits a text starts with. */
  function Run(s: string, hex: bool): (run: string)
    ensures |run| <= |s| && run == s[..|run|]
    ensures forall i :: 0 <= i < |run| ==> if hex then IsHexDigit(run[i]) else IsDigit(run[i])
    ensures |run| < |s| ==> !if hex then IsHexDigit(s[|run|]) else IsDigit(s[|run|])
  {
    if s != "" && (if hex then IsHexDigit(s[0]) else IsDigit(s[0])) then [s[0]] + Run(s[1..], hex) else ""
  }

  predicate StartsHex(s: string) { |s| >= 3 && s[0] == '0' && s[1] == 'x' && IsHexDigit(s[2]) }

  /** The number a text starts with, without a sign. */
  function UnsignedAt(s: string): Option<nat> {
    if StartsHex(s) then Some(ParseHex(Run(s[2..], true)))
    else if s != "" && IsDigit(s[0]) then Some(ParseDecimal(Run(s, false)))
    else None
  }

  function NumberAt(s: string): Option<int> {
    if s != "" && s[0] == '-' then
      if UnsignedAt(s[1..]).Some? then Some(-(UnsignedAt(s[1..]).value as int)) else None
    else if UnsignedAt(s).Some? then Some(UnsignedAt(s).value) else None
  }

  /** The leftmost number in a text. */
  function FirstNumber(s: string): Option<int> {
    if s == "" then None else if NumberAt(s).Some? then NumberAt(s) else FirstNumber(s[1..])
  }

  const HEX_DIGITS := "0123456789abcdef"

  /** How disassemblers write a number after `0x`. */
  function Hex(n: nat): string {
    if n < 16 then [HEX_DIGITS[n]] else Hex(n / 16) + [HEX_DIGITS[n % 16]]
  }

  lemma DigitReadsBack(d: nat)
    requires d < 16
    ensures IsHexDigit(HEX_DIGITS[d]) && HexDigitValue(HEX_DIGITS[d]) == d
  {}

  lemma {:induction false} HexReadsBack(n: nat)
    ensures HexDigits(Hex(n)) && ParseHex(Hex(n)) == n
  {
    var s := Hex(n);
    DigitReadsBack(n % 16);
    if n >= 16 {
      HexReadsBack(n / 16);
      assert s[..|s| - 1] == Hex(n / 16);
    } else {
      assert s[..0] == "";
    }
  }

  // ---- which number that is ----

  predicate HasDigit(s: string) { exists i :: 0 <= i < |s| && IsDigit(s[i]) }

  /** A text that stands for `v`: decimal, or hexadecimal after `0x`. */
  predicate Denotes(s: string, v: nat) {
    if |s| >= 2 && s[..2] == "0x" then HexDigits(s[2..]) && v == ParseHex(s[2..])
    else Digits(s) && v == ParseDecimal(s)
  }

  /** A numeral cannot reach over this text from the left. */
  predicate Delimits(s: string) { s == "" || !(IsHexDigit(s[0]) || s[0] == 'x') }

  /** No numeral at the end of this text goes on, and no sign is left over. */
  predicate Separates(s: string) {
    s == "" || !(IsHexDigit(s[|s| - 1]) || s[|s| - 1] == 'x' || s[|s| - 1] == '-')
  }

  predicate EndsInSign(s: string) { s != "" && s[|s| - 1] == '-' }

  lemma {:induction false} RunStops(digits: string, rest: string, hex: bool)
    requires forall i :: 0 <= i < |digits| ==> if hex then IsHexDigit(digits[i]) else IsDigit(digits[i])
    requires Delimits(rest)
    ensures Run(digits + rest, hex) == digits
  {
    var s := digits + rest;
    if digits == "" {
      assert s == rest;
    } else {
      assert s[0] == digits[0] && s[1..] == digits[1..] + rest;
      RunStops(digits[1..], rest, hex);
    }
  }

  lemma UnsignedIsRead(numeral: string, v: nat, rest: string)
    requires Denotes(numeral, v) && Delimits(rest)
    ensures UnsignedAt(numeral + rest) == Some(v)
    ensures numeral != "" && IsDigit((numeral + rest)[0]) && (numeral + rest)[0] != '-'
  {
    var s := numeral + rest;
    if |numeral| >= 2 && numeral[..2] == "0x" {
      assert numeral[0] == numeral[..2][0] && numeral[1] == numeral[..2][1];
      assert s[2] == numeral[2..][0];
      assert s[2..] == numeral[2..] + rest;
      RunStops(numeral[2..], rest, true);
    } else {
      assert |numeral| > 1 ==> s[1] == numeral[1] && IsDigit(numeral[1]);
      assert |numeral| == 1 && rest != "" ==> s[1] == rest[0] && rest[0] != 'x';
      assert !StartsHex(s);
      RunStops(numeral, rest, false);
    }
  }

  lemma DigitAfter(s: string)
    requires s != ""
    ensures HasDigit(s) <==> IsDigit(s[0]) || HasDigit(s[1..])
  {
    if HasDigit(s[1..]) {
      var i :| 0 <= i < |s| - 1 && IsDigit(s[1..][i]);
      assert IsDigit(s[i + 1]);
    }
    if HasDigit(s) && !IsDigit(s[0]) {
      var i :| 0 <= i < |s| && IsDigit(s[i]);
      assert IsDigit(s[1..][i - 1]);
    }
  }

  /** Nothing in front of the first digit but a sign. */
  lemma SignOnly(s: string)
    requires s != "" && !IsDigit(s[0]) && (s[0] == '-' ==> |s| > 1 && !IsDigit(s[1]))
    ensures NumberAt(s) == None
  {
    if s[0] == '-' { assert s[1..][0] == s[1]; }
  }

  lemma {:induction false} NothingBefore(before: string, rest: string)
    requires !HasDigit(before) && !EndsInSign(before)
    ensures FirstNumber(before + rest) == FirstNumber(rest)
  {
    var s := before + rest;
    if before == "" {
      assert s == rest;
    } else {
      assert s[1..] == before[1..] + rest;
      assert !IsDigit(before[0]) && (|before| > 1 ==> !IsDigit(before[1]) && s[1] == before[1]);
      SignOnly(s);
      DigitAfter(before);
      NothingBefore(before[1..], rest);
    }
  }

  /** A number after a text without digits is the first one. */
  lemma FirstIsRead(before: string, numeral: string, v: nat, rest: string)
    requires !HasDigit(before) && !EndsInSign(before) && Denotes(numeral, v) && Delimits(rest)
    ensures FirstNumber(before + numeral + rest) == Some(v)
  {
    var s := numeral + rest;
    UnsignedIsRead(numeral, v, rest);
    assert before + numeral + rest == before + s;
    NothingBefore(before, s);
  }

  /** The sign directly before it counts. */
  lemma FirstIsNegative(before: string, numeral: string, v: nat, rest: string)
    requires !HasDigit(before) && Denotes(numeral, v) && Delimits(rest)
    ensures FirstNumber(before + "-" + numeral + rest) == Some(-(v as int))
  {
    UnsignedIsRead(numeral, v, rest);
    NegativeIsRead(before, numeral + rest, v);
    assert before + "-" + numeral + rest == before + ("-" + (numeral + rest));
  }

  lemma {:induction false} NegativeIsRead(before: string, s: string, v: nat)
    requires !HasDigit(before) && UnsignedAt(s) == Some(v)
    ensures FirstNumber(before + ("-" + s)) == Some(-(v as int))
  {
    var t := "-" + s;
    assert t[1..] == s;
    if before == "" {
      assert before + t == t;
    } else {
      var u := before + t;
      assert u[1..] == before[1..] + t;
      assert !IsDigit(before[0]) && if |before| > 1 then !IsDigit(before[1]) && u[1] == before[1] else u[1] == '-';
      SignOnly(u);
      DigitAfter(before);
      NegativeIsRead(before[1..], s, v);
    }
  }

  lemma {:induction false} NumberIffDigit(s: string)
    ensures FirstNumber(s).Some? <==> HasDigit(s)
  {
    if s != "" {
      NumberIffDigit(s[1..]);
      DigitAfter(s);
      if |s| > 1 { DigitAfter(s[1..]); }
    }
  }

  lemma {:induction false} RunInside(a: string, b: string, hex: bool)
    requires a != "" && !IsHexDigit(a[|a| - 1])
    ensures Run(a + b, hex) == Run(a, hex)
  {
    assert (a + b)[1..] == a[1..] + b;
    if |a| > 1 { RunInside(a[1..], b, hex); }
  }

  lemma UnsignedInside(before: string, rest: string)
    requires before != "" && Separates(before)
    ensures UnsignedAt(before + rest) == UnsignedAt(before)
  {
    var s := before + rest;
    RunInside(before, rest, false);
    if |before| >= 3 {
      assert s[2..] == before[2..] + rest;
      RunInside(before[2..], rest, true);
    }
  }

  lemma {:induction false} EarlierNumberWins(before: string, rest: string)
    requires HasDigit(before) && Separates(before)
    ensures FirstNumber(before + rest) == FirstNumber(before)
  {
    var s := before + rest;
    assert s[1..] == before[1..] + rest;
    UnsignedInside(before, rest);
    if |before| > 1 { UnsignedInside(before[1..], rest); }
    DigitAfter(before);
    if HasDigit(before[1..]) { EarlierNumberWins(before[1..], rest); }
  }

  /**
   A number printed last, as disassemblers print branch targets, is the first one exactly when no digit comes before
   it, or the number that does is the same.
   */
  lemma PrintedIsReadIff(before: string, numeral: string, v: nat)
    requires Separates(before) && Denotes(numeral, v)
    ensures FirstNumber(before + numeral) == Some(v) <==> !HasDigit(before) || FirstNumber(before) == Some(v)
  {
    if HasDigit(before) {
      EarlierNumberWins(before, numeral);
    } else {
      FirstIsRead(before, numeral, v, "");
      assert before + numeral + "" == before + numeral;
    }
  }
}
