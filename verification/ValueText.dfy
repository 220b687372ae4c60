/**
 Values as text: what INSERT parses, and what SELECT prints and DELETE compares. First what texts
 mean, character by character; then the conversions themselves, proved against that.
 */
module ValueText {
  import opened Rows

  /** `Refused` is the `std::runtime_error` that the executor reports; `Escaped` is any other exception. */
  datatype Parsed = Ok(value: Value) | Refused | Escaped

  datatype Printed = Printed(text: Text) | Unprintable

  // ---- what a text means ----

  const DIGITS := "0123456789"

  predicate IsDigit(c: char) { '0' <= c <= '9' }

  function DigitValue(c: char): (n: nat)
    requires IsDigit(c)
    ensures n < 10 && DIGITS[n] == c
  {
    c as int - '0' as int
  }

  ghost predicate AllDigits(t: Text) {
    forall i | 0 <= i < |t| :: IsDigit(t[i])
  }

  ghost function PowerOfTen(n: nat): nat {
    if n == 0 then 1 else 10 * PowerOfTen(n - 1)
  }

  /** The value of a run of digits: each digit times the power of ten of its place. */
  ghost function Positional(digits: Text): nat
    requires AllDigits(digits)
  {
    if digits == "" then 0 else DigitValue(digits[0]) * PowerOfTen(|digits| - 1) + Positional(digits[1..])
  }

  /** White space in the C locale. */
  ghost predicate IsSpace(c: char) {
    c == ' ' || c == '\t' || c == '\n' || c == '\U{0b}' || c == '\U{0c}' || c == '\r'
  }

  ghost predicate StartsWithSign(t: Text) {
    t != "" && (t[0] == '+' || t[0] == '-')
  }

  /** What `std::stoi` sees in a text: white space before `start`, a sign before `first`, digits before `end`. */
  datatype Parts = Parts(start: nat, first: nat, end: nat)

  /** White space, at most one sign, digits, and anything else: each part as long as it can be. */
  ghost predicate Splits(text: Text, p: Parts) {
    && p.start <= p.first <= p.end <= |text|
    && (forall i | 0 <= i < p.start :: IsSpace(text[i])) && (p.start < |text| ==> !IsSpace(text[p.start]))
    && p.first == (if StartsWithSign(text[p.start..]) then p.start + 1 else p.start)
    && (forall i | p.first <= i < p.end :: IsDigit(text[i])) && (p.end < |text| ==> !IsDigit(text[p.end]))
  }

  /** The signed value of the digits, if there are any and it is one of 32 bits. */
  ghost function NumberOf(text: Text, p: Parts): Parsed
    requires Splits(text, p)
  {
    var n: int := Positional(text[p.first..p.end]);
    var v: int := if p.start < |text| && text[p.start] == '-' then -n else n;
    if p.first < p.end && -0x8000_0000 <= v < 0x8000_0000 then Ok(Integer(v)) else Escaped
  }

  /** The text is this word, letter by letter, each letter small or capital. */
  ghost predicate Spells(text: Text, small: Text, capital: Text)
    requires |small| == |capital|
  {
    |text| == |small| && forall i | 0 <= i < |text| :: text[i] == small[i] || text[i] == capital[i]
  }

  /** What becomes of a literal that is given for a column of type `t`. */
  ghost predicate Means(text: Text, t: TypeId, p: Parsed) {
    match t
    case INTEGER => exists parts :: Splits(text, parts) && p == NumberOf(text, parts)
    case BOOLEAN =>
      p == if Spells(text, "true", "TRUE") then Ok(Boolean(1))
           else if Spells(text, "false", "FALSE") then Ok(Boolean(0))
           else Refused
    case INVALID => p == Refused
  }

  // ---- how a value is printed ----

  /** Digits that are not led by a zero, unless there is nothing else. */
  ghost predicate IsNumeral(digits: Text) {
    digits != "" && AllDigits(digits) && (digits[0] == '0' ==> digits == "0")
  }

  /** A minus sign for the negative numbers only, and the numeral of the absolute value. */
  ghost predicate IsDecimal(text: Text, i: int) {
    && text != "" && (text[0] == '-' <==> i < 0)
    && var digits: Text := if i < 0 then text[1..] else text;
    && IsNumeral(digits) && Positional(digits) == if i < 0 then -i else i
  }

  ghost predicate Prints(v: Value, text: Text) {
    match v
    case Integer(i) => IsDecimal(text, i)
    case Boolean(b) => text == if b != 0 then "true" else "false"
    case NoValue => false
  }

  /** The texts that values of a type are printed as. */
  ghost predicate Canonical(text: Text, t: TypeId) {
    match t
    case INTEGER =>
      text != "" && if text[0] == '-' then IsNumeral(text[1..]) && text[1] != '0' else IsNumeral(text)
    case BOOLEAN => text == "true" || text == "false"
    case INVALID => false
  }

  /** A truth value as a literal gives it. */
  ghost function Normal(v: Value): Value {
    if v.Boolean? && v.b != 0 then Boolean(1) else v
  }

  // ---- the conversions ----

  function DigitChar(n: nat): (c: char)
    requires n < 10
    ensures IsDigit(c) && DigitValue(c) == n
  {
    ('0' as int + n) as char
  }

  /** `std::to_string` of a natural number. */
  function Digits(n: nat): (t: Text)
    ensures t != "" && AllDigits(t)
  {
    if n < 10 then [DigitChar(n)] else Digits(n / 10) + [DigitChar(n % 10)]
  }

  function PrintInt(i: int): Text {
    if i < 0 then "-" + Digits(-i) else Digits(i)
  }

  /** The number that a string's leading digits add up to. */
  function LeadingValue(s: Text, acc: nat): nat {
    if s == "" || !IsDigit(s[0]) then acc else LeadingValue(s[1..], 10 * acc + DigitValue(s[0]))
  }

  function SkipSpace(s: Text): (t: Text)
    ensures |t| <= |s| && t == s[|s| - |t|..] && (t != "" ==> !IsSpace(t[0]))
    ensures forall i | 0 <= i < |s| - |t| :: IsSpace(s[i])
  {
    if s != "" && (s[0] == ' ' || 9 <= s[0] as int <= 13) then SkipSpace(s[1..]) else s
  }

  /** `std::stoi`: leading space, a sign, digits; whatever follows them is ignored. */
  function ParseInt(s: Text): Parsed {
    var t := SkipSpace(s);
    var u: Text := if t != "" && (t[0] == '-' || t[0] == '+') then t[1..] else t;
    if u == "" || !IsDigit(u[0]) then Escaped
    else
      var n := LeadingValue(u, 0);
      var v: int := if t[0] == '-' then -(n as int) else n;
      if -0x8000_0000 <= v < 0x8000_0000 then Ok(Integer(v)) else Escaped
  }

  function Upper(s: Text): string {
    seq(|s|, i requires 0 <= i < |s| => if 'a' <= s[i] <= 'z' then (s[i] as int - 32) as char else s[i])
  }

  function FromString(raw: Text, t: TypeId): (r: Parsed)
    ensures r.Ok? ==> TypeOf(r.value) == t
  {
    match t
    case INTEGER => ParseInt(raw)
    case BOOLEAN =>
      var u := Upper(raw);
      if u != "TRUE" && u != "FALSE" then Refused else Ok(Boolean(if u == "TRUE" then 1 else 0))
    case INVALID => Refused
  }

  function ToString(v: Value): Printed {
    match v
    case Integer(i) => Printed(PrintInt(i))
    case Boolean(b) => Printed(if b != 0 then "true" else "false")
    case NoValue => Unprintable
  }

  // ---- reading ----

  /** A text can be taken apart in one way only. */
  lemma SplitsOnce(text: Text, p: Parts, q: Parts)
    requires Splits(text, p) && Splits(text, q)
    ensures p == q
  {
    hide IsSpace, IsDigit;
    assert p.start == q.start;
  }

  /** The digits that a text starts with. */
  ghost function LeadingDigits(s: Text): (d: Text)
    ensures |d| <= |s| && d == s[..|d|] && AllDigits(d) && (|d| < |s| ==> !IsDigit(s[|d|]))
  {
    if s == "" || !IsDigit(s[0]) then "" else [s[0]] + LeadingDigits(s[1..])
  }

  lemma Shifted(acc: int, d: int, p: int)
    ensures (10 * acc + d) * p == acc * (10 * p) + d * p
  {
  }

  lemma PositionalCons(c: char, digits: Text)
    requires IsDigit(c) && AllDigits(digits) && c as int < 0x100
    ensures AllDigits([c] + digits)
    ensures Positional([c] + digits) == DigitValue(c) * PowerOfTen(|digits|) + Positional(digits)
  {
    hide IsDigit, DigitValue;
    assert ([c] + digits)[1..] == digits;
  }

  /** Multiplying by ten and adding as one goes from left to right gives the positional value. */
  lemma {:induction false} LeadingIsPositional(s: Text, acc: nat)
    ensures LeadingValue(s, acc) == acc * PowerOfTen(|LeadingDigits(s)|) + Positional(LeadingDigits(s))
    decreases |s|
  {
    hide Positional, DigitValue;
    if s == "" || !IsDigit(s[0]) {
      PositionalNone();
    } else {
      var d, rest := DigitValue(s[0]), LeadingDigits(s[1..]);
      LeadingIsPositional(s[1..], 10 * acc + d);
      PositionalCons(s[0], rest);
      Shifted(acc, d, PowerOfTen(|rest|));
    }
  }

  lemma PositionalNone()
    ensures Positional("") == 0
  {
  }

  lemma PartsSplit(s: Text, t: Text, p: Parts)
    requires |t| <= |s| && t == s[|s| - |t|..] && (t != "" ==> !IsSpace(t[0]))
    requires forall i | 0 <= i < |s| - |t| :: IsSpace(s[i])
    requires p.start == |s| - |t| && p.first == (if StartsWithSign(t) then p.start + 1 else p.start)
    requires p.end == p.first + |LeadingDigits(s[p.first..])|
    ensures Splits(s, p) && s[p.first..p.end] == LeadingDigits(s[p.first..])
  {
    hide LeadingDigits, IsDigit, IsSpace;
    var u, digits := s[p.first..], LeadingDigits(s[p.first..]);
    assert t != "" ==> t[0] == s[p.start];
    assert forall i | p.first <= i < p.end :: s[i] == digits[i - p.first];
    assert |digits| < |u| ==> u[|digits|] == s[p.end];
  }

  lemma ParseIntSplits(s: Text) returns (p: Parts)
    ensures Splits(s, p) && ParseInt(s) == NumberOf(s, p)
  {
    hide SkipSpace, IsSpace, LeadingDigits, LeadingValue, Positional, DigitValue, PowerOfTen, IsDigit, Splits;
    var t := SkipSpace(s);
    var sign := if StartsWithSign(t) then 1 else 0;
    var u: Text := t[sign..];
    p := Parts(|s| - |t|, |s| - |t| + sign, |s| - |t| + sign + |LeadingDigits(u)|);
    assert s[p.first..] == u;
    PartsSplit(s, t, p);
    LeadingIsPositional(u, 0);
    assert LeadingDigits(u) == "" <==> u == "" || !IsDigit(u[0]);
  }

  lemma UpperSpells(s: Text)
    ensures Upper(s) == "TRUE" <==> Spells(s, "true", "TRUE")
    ensures Upper(s) == "FALSE" <==> Spells(s, "false", "FALSE")
  {
    var u := Upper(s);
    assert |s| == 4 ==> (u == "TRUE" <==> u[0] == 'T' && u[1] == 'R' && u[2] == 'U' && u[3] == 'E');
    assert |s| == 5 ==>
      (u == "FALSE" <==> u[0] == 'F' && u[1] == 'A' && u[2] == 'L' && u[3] == 'S' && u[4] == 'E');
  }

  /** Every text is read for what it means, and nothing else. */
  lemma FromStringMeans(text: Text, t: TypeId, p: Parsed)
    ensures Means(text, t, p) <==> p == FromString(text, t)
  {
    match t {
      case INTEGER =>
        var parts := ParseIntSplits(text);
        forall q | Splits(text, q) ensures q == parts { SplitsOnce(text, q, parts); }
      case BOOLEAN => UpperSpells(text);
      case INVALID =>
    }
  }

  // ---- printing ----

  lemma {:induction false} PositionalSplit(s: Text, c: char)
    requires AllDigits(s) && IsDigit(c) && c as int < 0x100
    ensures AllDigits(s + [c]) && Positional(s + [c]) == 10 * Positional(s) + DigitValue(c)
  {
    hide IsDigit, DigitValue, Positional;
    if s == "" {
      PositionalCons(c, "");
      PositionalNone();
      assert s + [c] == [c] + "";
    } else {
      PositionalSplit(s[1..], c);
      PositionalCons(s[0], s[1..]);
      PositionalCons(s[0], s[1..] + [c]);
      assert [s[0]] + s[1..] == s && [s[0]] + (s[1..] + [c]) == s + [c];
      TenTimes(DigitValue(s[0]), PowerOfTen(|s| - 1));
    }
  }

  lemma TenTimes(d: int, p: int)
    ensures d * (10 * p) == 10 * (d * p)
  {
  }

  lemma {:induction false} DigitsPositional(n: nat)
    ensures IsNumeral(Digits(n)) && Positional(Digits(n)) == n && (n > 0 ==> Digits(n)[0] != '0')
  {
    if n < 10 {
      assert Positional(Digits(n)[1..]) == 0;
    } else {
      DigitsPositional(n / 10);
      PositionalSplit(Digits(n / 10), DigitChar(n % 10));
    }
  }

  /** A numeral is the one that its value is printed as. */
  lemma {:induction false} NumeralIsDigits(d: Text)
    requires IsNumeral(d)
    ensures Digits(Positional(d)) == d && (d != "0" ==> Positional(d) > 0)
    decreases |d|
  {
    if |d| == 1 {
      assert Positional(d[1..]) == 0;
      assert DIGITS[Positional(d)] == d[0];
    } else {
      var front, c := d[..|d| - 1], d[|d| - 1];
      assert d == front + [c] && front[0] == d[0] != '0';
      NumeralIsDigits(front);
      PositionalSplit(front, c);
      assert Positional(d) / 10 == Positional(front) && Positional(d) % 10 == DigitValue(c);
      assert DIGITS[DigitValue(c)] == c == DigitChar(DigitValue(c));
    }
  }

  /** A value is printed as the one text that `Prints` allows, and nothing is printed for no value. */
  lemma ToStringPrints(v: Value, text: Text)
    ensures Prints(v, text) <==> ToString(v) == Printed(text)
    ensures ToString(v) == Unprintable <==> v == NoValue
  {
    if v.Integer? {
      var i: int := v.i;
      DigitsPositional(if i < 0 then -i else i);
      assert i < 0 ==> PrintInt(i)[1..] == Digits(-i);
      assert Prints(v, PrintInt(i));
      if Prints(v, text) {
        NumeralIsDigits(if i < 0 then text[1..] else text);
        assert i < 0 ==> text == "-" + text[1..];
      }
    }
  }

  /**
   What is printed for a value are exactly the texts that mean it and are written as values are printed:
   no white space, no plus sign, no leading zeros, small letters, nothing after the number.
   */
  lemma PrintsExactly(v: Value, text: Text)
    ensures Prints(v, text) <==> Canonical(text, TypeOf(v)) && Means(text, TypeOf(v), Ok(Normal(v)))
  {
    match v {
      case Integer(i) => DecimalExactly(i, text);
      case Boolean(b) =>
        assert Spells("true", "true", "TRUE") && Spells("false", "false", "FALSE");
        assert !Spells("false", "true", "TRUE");
      case NoValue =>
    }
  }

  lemma DecimalExactly(i: int, text: Text)
    requires -0x8000_0000 <= i < 0x8000_0000
    ensures IsDecimal(text, i) <==> Canonical(text, INTEGER) && Means(text, INTEGER, Ok(Integer(i)))
  {
    hide Positional, IsDigit, IsSpace, Digits, DigitValue;
    if text != "" && IsNumeral(if text[0] == '-' then text[1..] else text) {
      DigitsAreNoSpace();
      var sign := if text[0] == '-' then 1 else 0;
      var digits: Text := text[sign..];
      var parts := Parts(0, sign, |text|);
      assert text[sign..|text|] == digits && text[sign] == digits[0];
      assert Splits(text, parts);
      forall q | Splits(text, q) ensures q == parts { SplitsOnce(text, q, parts); }
      NumeralIsDigits(digits);
      NoughtIsNought();
      assert Means(text, INTEGER, Ok(Integer(i))) <==> Ok(Integer(i)) == NumberOf(text, parts);
    }
  }

  lemma DigitsAreNoSpace()
    ensures forall c | IsDigit(c) :: !IsSpace(c) && c != '+' && c != '-'
    ensures !IsSpace('-')
  {
  }

  lemma NoughtIsNought()
    ensures AllDigits("0") && Positional("0") == 0
  {
    assert "0"[1..] == "";
  }

  /** What is printed parses back: integers exactly, booleans to the same truth value. */
  lemma PrintParse(v: Value)
    requires v != NoValue
    ensures ToString(v).Printed?
    ensures var r := FromString(ToString(v).text, TypeOf(v));
      && r == Ok(Normal(v)) && ToString(r.value) == ToString(v)
  {
    ToStringPrints(v, "");
    var text := ToString(v).text;
    ToStringPrints(v, text);
    PrintsExactly(v, text);
    FromStringMeans(text, TypeOf(v), Ok(Normal(v)));
  }
}
