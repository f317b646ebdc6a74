/** Field values of report records and the Ruby conversions the result
    tree relies on: `to_i` on a value (`String#to_i`, `Integer#to_i`,
    `nil.to_i`) and `Integer#to_s`. */
module Values {

  datatype Option<+T> = None | Some(value: T)

  /** A value stored in a record: a string, an integer, or nil. */
  datatype Value = Str(s: string) | Int(i: int) | Nil

  /** A record maps field names to values. Field names are plain strings:
      indifferent access only hides the string/symbol distinction. */
  type Record = map<string, Value>

  /** `record[key]`: a missing key reads as nil. */
  function Get(m: Record, k: string): Value {
    if k in m then m[k] else Nil
  }

  predicate IsDigit(c: char) {
    '0' <= c <= '9'
  }

  /** The characters `String#to_i` skips before the number:
      space, tab, newline, vertical tab, form feed, carriage return. */
  predicate IsSpace(c: char) {
    c == ' ' || '\t' <= c <= '\r'
  }

  predicate AllDigits(s: string) {
    forall i :: 0 <= i < |s| ==> IsDigit(s[i])
  }

  /** Length of the longest prefix of `s` made of digits. */
  function DigitRun(s: string): (n: nat)
    ensures n <= |s|
    ensures AllDigits(s[..n])
    ensures n < |s| ==> !IsDigit(s[n])
  {
    if s != [] && IsDigit(s[0]) then 1 + DigitRun(s[1..]) else 0
  }

  /** The number a string of decimal digits denotes. */
  function DigitsValue(d: string): nat
    requires AllDigits(d)
  {
    if d == [] then 0
    else 10 * DigitsValue(d[..|d| - 1]) + (d[|d| - 1] as int - '0' as int)
  }

  function SkipSpace(s: string): (t: string)
    ensures |t| <= |s|
    ensures t == s[|s| - |t|..]
    ensures t != [] ==> !IsSpace(t[0])
  {
    if s != [] && IsSpace(s[0]) then SkipSpace(s[1..]) else s
  }

  /** The optional base-10 prefix `0d` or `0D` that `to_i` accepts after
      the sign. */
  function SkipRadixPrefix(t: string): string {
    if |t| >= 2 && t[0] == '0' && (t[1] == 'd' || t[1] == 'D') then t[2..] else t
  }

  /** The value of the longest run of digits at the start of `u`. */
  function LeadingValue(u: string): nat {
    DigitsValue(u[..DigitRun(u)])
  }

  /** Ruby's `String#to_i` in base 10: leading white space is skipped, an
      optional sign is read, then an optional `0d` prefix, then the longest
      run of digits; anything else reads as 0. */
  function ToI(s: string): int {
    var t := SkipSpace(s);
    if t != [] && (t[0] == '-' || t[0] == '+') then
      var m: int := LeadingValue(SkipRadixPrefix(t[1..]));
      if t[0] == '-' then -m else m
    else
      LeadingValue(SkipRadixPrefix(t))
  }

  /** `to_i` on a record value. */
  function ToIVal(v: Value): int {
    match v
    case Str(s) => ToI(s)
    case Int(i) => i
    case Nil => 0
  }

  function DigitChar(d: nat): (c: char)
    requires d < 10
    ensures IsDigit(c) && c as int - '0' as int == d
  {
    ('0' as int + d) as char
  }

  /** `Integer#to_s` of a non-negative integer. */
  function NatToStr(n: nat): (s: string)
    ensures s != [] && AllDigits(s)
  {
    if n < 10 then [DigitChar(n)] else NatToStr(n / 10) + [DigitChar(n % 10)]
  }

  /** `Integer#to_s`. */
  function IntToStr(n: int): string {
    if n < 0 then "-" + NatToStr(-n) else NatToStr(n)
  }

  lemma {:induction false} NatToStrValue(n: nat)
    ensures DigitsValue(NatToStr(n)) == n
  {
    if n >= 10 {
      var s := NatToStr(n);
      assert s[..|s| - 1] == NatToStr(n / 10);
      NatToStrValue(n / 10);
    }
  }

  lemma DigitRunAll(s: string)
    requires AllDigits(s)
    ensures DigitRun(s) == |s|
  {
  }

  /** A plain run of digits, as `to_s` writes it, reads as its value. */
  lemma LeadingDigits(d: string)
    requires AllDigits(d)
    ensures LeadingValue(SkipRadixPrefix(d)) == DigitsValue(d)
  {
    if |d| >= 2 {
      assert IsDigit(d[1]);
    }
    DigitRunAll(d);
    assert d[..|d|] == d;
  }

  /** A run of digits reads as its value. */
  lemma ToIDigits(d: string)
    requires d != [] && AllDigits(d)
    ensures ToI(d) == DigitsValue(d)
  {
    assert SkipSpace(d) == d;
    LeadingDigits(d);
  }

  /** A minus sign followed by a run of digits reads as minus its value. */
  lemma ToIMinusDigits(d: string)
    requires AllDigits(d)
    ensures ToI("-" + d) == -(DigitsValue(d) as int)
  {
    var s := "-" + d;
    assert SkipSpace(s) == s;
    assert s[1..] == d;
    LeadingDigits(d);
  }

  /** Reading back a count that was written with `to_s` gives the count:
      `n.to_s.to_i == n`. */
  lemma ToIRoundTrip(n: int)
    ensures ToI(IntToStr(n)) == n
  {
    if n < 0 {
      var d := NatToStr(-n);
      assert IntToStr(n) == "-" + d;
      ToIMinusDigits(d);
      NatToStrValue(-n);
    } else {
      var d := NatToStr(n);
      assert IntToStr(n) == d;
      ToIDigits(d);
      NatToStrValue(n);
    }
  }

  /** The overflow token reads as 10. */
  lemma ToITenPlus()
    ensures ToI("10+") == 10
  {
    var s := "10+";
    assert SkipSpace(s) == s;
    assert DigitRun(s[2..]) == 0;
    assert DigitRun(s) == 2;
    assert s[..2] == "10";
    assert "10"[..1] == "1";
    assert DigitsValue("1") == 1 by { assert "1"[..0] == ""; }
    assert DigitsValue("10") == 10;
  }

  /** A string with no digit at all reads as 0. */
  lemma ToINoDigits(s: string)
    requires forall i :: 0 <= i < |s| ==> !IsDigit(s[i])
    ensures ToI(s) == 0
  {
  }

  /** A number written with the base-10 prefix reads as its digits:
      `"0d12".to_i == 12`. */
  lemma ToIRadixPrefix(d: string)
    requires AllDigits(d)
    ensures ToI("0d" + d) == DigitsValue(d)
  {
    var s := "0d" + d;
    assert SkipSpace(s) == s;
    assert SkipRadixPrefix(s) == d;
    DigitRunAll(d);
    assert d[..|d|] == d;
  }

  /** The prefix may follow the sign, in either case: `"-0D12".to_i == -12`. */
  lemma ToIMinusRadixPrefix(d: string)
    requires AllDigits(d)
    ensures ToI("-0D" + d) == -(DigitsValue(d) as int)
  {
    var s := "-0D" + d;
    assert SkipSpace(s) == s;
    assert s[1..] == "0D" + d;
    assert SkipRadixPrefix(s[1..]) == d;
    DigitRunAll(d);
    assert d[..|d|] == d;
  }
}
