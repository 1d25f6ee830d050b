/** Convert.ChangeType from a string to the console's parameter types, and
    Int32.ToString. Integers follow Int32.Parse with NumberStyles.Integer;
    floats are read as decimal numerals. */
module Convert {
  import opened Results
  import opened Values
  import Text

  const Int32Min: int := -0x8000_0000
  const Int32Max: int := 0x7FFF_FFFF

  /** The white space NumberStyles.AllowLeadingWhite/AllowTrailingWhite accept. */
  predicate IsNumberWhite(c: char) {
    ('\U{9}' <= c <= '\U{D}') || c == ' '
  }

  function SkipLeadingWhite(s: string): (r: string)
    ensures |r| <= |s| && r == s[|s| - |r|..]
    ensures |r| > 0 ==> !IsNumberWhite(r[0])
    decreases |s|
  {
    if |s| > 0 && IsNumberWhite(s[0]) then SkipLeadingWhite(s[1..]) else s
  }

  function SkipTrailingWhite(s: string): (r: string)
    ensures |r| <= |s| && r == s[..|r|]
    ensures |r| > 0 ==> !IsNumberWhite(r[|r| - 1])
    decreases |s|
  {
    if |s| > 0 && IsNumberWhite(s[|s| - 1]) then SkipTrailingWhite(s[..|s| - 1]) else s
  }

  predicate IsDigit(c: char) {
    '0' <= c <= '9'
  }

  predicate AllDigits(s: string) {
    forall j :: 0 <= j < |s| ==> IsDigit(s[j])
  }

  /** The value of a decimal digit string, most significant digit first. */
  function DigitsValue(s: string): nat
    requires AllDigits(s)
    decreases |s|
  {
    if |s| == 0 then 0 else DigitsValue(s[..|s| - 1]) * 10 + (s[|s| - 1] as int - '0' as int)
  }

  /** Splits an optional leading sign off a numeral: (negative, rest). */
  function SignOf(t: string): (bool, string) {
    if |t| > 0 && t[0] == '-' then (true, t[1..])
    else if |t| > 0 && t[0] == '+' then (false, t[1..])
    else (false, t)
  }

  /** Int32.Parse(s): [white][sign]digits[white]; a malformed numeral throws
      FormatException, one outside the 32-bit range OverflowException. */
  function ParseInt32(s: string): (r: Result<int>)
    ensures r.Success? ==> Int32Min <= r.value <= Int32Max
  {
    var (negative, body) := SignOf(SkipTrailingWhite(SkipLeadingWhite(s)));
    if |body| == 0 || !AllDigits(body) then Failure(FormatError)
    else
      var magnitude: int := DigitsValue(body);
      var v := if negative then -magnitude else magnitude;
      if v < Int32Min || v > Int32Max then Failure(OverflowError) else Success(v)
  }

  /** Single.Parse(s) on a decimal numeral: [white][sign][digits][.digits][white]
      with at least one digit; the value is kept exactly. */
  function ParseFloat(s: string): (r: Result<real>)
  {
    ParseSigned(SkipTrailingWhite(SkipLeadingWhite(s)))
  }

  /** A numeral without surrounding white space: [sign][digits][.digits]. */
  function ParseSigned(t: string): (r: Result<real>)
  {
    var (negative, body) := SignOf(t);
    match DecimalBody(body)
    case Failure(e) => Failure(e)
    case Success(magnitude) => Success(if negative then -magnitude else magnitude)
  }

  /** The unsigned part of a float numeral: digits, optionally a point and more
      digits, with at least one digit in all. */
  function DecimalBody(body: string): (r: Result<real>)
  {
    var dot := Text.IndexOf(body, ".");
    var whole := if dot.Some? then body[..dot.value] else body;
    var fraction := if dot.Some? then body[dot.value + 1..] else "";
    if |whole| + |fraction| == 0 || !AllDigits(whole) || !AllDigits(fraction) then Failure(FormatError)
    else Success(Decimal(DigitsValue(whole), DigitsValue(fraction), |fraction|))
  }

  /** The number `whole.fraction` whose fraction has `k` digits. */
  function Decimal(whole: nat, fraction: nat, k: nat): real {
    whole as real + fraction as real / Pow10(k) as real
  }

  function Pow10(n: nat): (r: nat)
    ensures r >= 1
  {
    if n == 0 then 1 else 10 * Pow10(n - 1)
  }

  /** Boolean.Parse(s): "True" or "False" in any case, surrounded by white space. */
  function ParseBool(s: string): Result<bool> {
    var t := Text.Lower(Text.Trim(s));
    if t == "true" then Success(true) else if t == "false" then Success(false) else Failure(FormatError)
  }

  /** Convert.ChangeType(s, t) from a string. Strings convert to themselves;
      arrays and the named types of `Other` are not IConvertible targets, so
      they cannot be produced from a string. */
  function ChangeType(s: string, t: ParamType): (r: Result<Value>)
    ensures r.Success? ==> HasType(r.value, t)
    ensures t.ArrayOf? || t.Other? ==> r == Failure(InvalidCast)
    ensures t == StringT ==> r == Success(StrV(s))
  {
    match t
    case IntT => (match ParseInt32(s) case Success(i) => Success(IntV(i)) case Failure(e) => Failure(e))
    case FloatT => (match ParseFloat(s) case Success(f) => Success(FloatV(f)) case Failure(e) => Failure(e))
    case StringT => Success(StrV(s))
    case BoolT => (match ParseBool(s) case Success(b) => Success(BoolV(b)) case Failure(e) => Failure(e))
    case ArrayOf(_) => Failure(InvalidCast)
    case Other(_) => Failure(InvalidCast)
  }

  // ---------------------------------------------------------------------------
  // Int32.ToString and its round trip with Int32.Parse

  function DigitChar(d: nat): char
    requires d < 10
  {
    ('0' as int + d) as char
  }

  /** The decimal digits of `n`, without leading zeros. */
  function ShowNat(n: nat): (r: string)
    ensures |r| > 0 && AllDigits(r)
    decreases n
  {
    if n < 10 then [DigitChar(n)] else ShowNat(n / 10) + [DigitChar(n % 10)]
  }

  /** Int32.ToString() in the invariant culture. */
  function ShowInt(n: int): string {
    if n < 0 then "-" + ShowNat(-n) else ShowNat(n)
  }

  lemma {:induction false} ShowNatValue(n: nat)
    ensures DigitsValue(ShowNat(n)) == n
    decreases n
  {
    if n >= 10 {
      var x := ShowNat(n / 10);
      ShowNatValue(n / 10);
      assert (x + [DigitChar(n % 10)])[..|x|] == x;
    }
  }

  lemma NoWhiteAround(s: string)
    requires |s| > 0 && !IsNumberWhite(s[0]) && !IsNumberWhite(s[|s| - 1])
    ensures SkipTrailingWhite(SkipLeadingWhite(s)) == s
  {
  }

  /** Parsing the decimal text of an Int32 gives the number back. */
  lemma ParseShowInt(n: int)
    requires Int32Min <= n <= Int32Max
    ensures ParseInt32(ShowInt(n)) == Success(n)
  {
    var digits := if n < 0 then ShowNat(-n) else ShowNat(n);
    ShowNatValue(if n < 0 then -n else n);
    var s := ShowInt(n);
    NoWhiteAround(s);
    if n < 0 {
      assert s[1..] == digits;
    }
  }

  // ---------------------------------------------------------------------------
  // Single.Parse on decimal numerals

  /** A decimal numeral `w.f` parses to w plus f's digits scaled by ten to the
      number of fraction digits. */
  lemma ParseDecimal(w: nat, f: string)
    requires AllDigits(f)
    ensures ParseFloat(ShowNat(w) + "." + f) == Success(Decimal(w, DigitsValue(f), |f|))
  {
    ShowNatValue(w);
    PointParse(ShowNat(w), f);
  }

  /** Digits, a point, digits: parsed as the whole part plus the scaled fraction. */
  lemma PointParse(x: string, f: string)
    requires |x| > 0 && AllDigits(x) && AllDigits(f)
    ensures ParseFloat(x + "." + f) == Success(Decimal(DigitsValue(x), DigitsValue(f), |f|))
  {
    var s := x + "." + f;
    assert IsDigit(s[0]) by { assert s[0] == x[0]; }
    if |f| == 0 {
      assert s[|s| - 1] == '.';
    } else {
      assert s[|s| - 1] == f[|f| - 1];
    }
    UnsignedParse(s);
    PointBody(x, f);
  }

  /** The decimal text of an integer, with no fraction, parses as a float to
      the same number. */
  lemma ParseFloatInt(n: int)
    ensures ParseFloat(ShowInt(n)) == Success(n as real)
  {
    if n < 0 {
      ParseFloatNegative(n);
    } else {
      ParseFloatNat(n);
    }
  }

  lemma ParseFloatNegative(n: int)
    requires n < 0
    ensures ParseFloat(ShowInt(n)) == Success(n as real)
  {
    ShowIntNegative(n);
    ParseFloatMinus(ShowInt(n), n);
  }

  /** The text of a negative number is a minus sign before the digits of its
      magnitude. */
  lemma ShowIntNegative(n: int)
    requires n < 0
    ensures |ShowInt(n)| > 1 && ShowInt(n)[0] == '-' && ShowInt(n)[1..] == ShowNat(-n)
  {
    var s := ShowInt(n);
    assert s[1..] == ShowNat(-n);
  }

  /** Digits alone parse to their value. */
  lemma ParseFloatNat(m: nat)
    ensures ParseFloat(ShowNat(m)) == Success(m as real)
  {
    var digits := ShowNat(m);
    ShowNatValue(m);
    DigitsBody(digits);
    UnsignedParse(digits);
  }

  /** A minus sign before the digits of -n parses to n. */
  lemma ParseFloatMinus(t: string, n: int)
    requires n < 0 && |t| > 1 && t[0] == '-' && t[1..] == ShowNat(-n)
    ensures ParseFloat(t) == Success(n as real)
  {
    var m: nat := -n;
    ShowNatValue(m);
    NegatedDigits(t, m);
    assert -(m as real) == n as real;
  }

  /** A minus sign before digits of value v parses to -v. */
  lemma NegatedDigits(t: string, v: nat)
    requires |t| > 1 && t[0] == '-' && AllDigits(t[1..]) && DigitsValue(t[1..]) == v
    ensures ParseFloat(t) == Success(-(v as real))
  {
    var x := t[1..];
    DigitsBody(x);
    assert t[1] == x[0] && t[|t| - 1] == x[|x| - 1];
    NegatedParse(t);
  }

  /** A numeral that starts with a digit and ends without white space is its
      own unsigned body. */
  lemma UnsignedParse(s: string)
    requires |s| > 0 && IsDigit(s[0]) && !IsNumberWhite(s[|s| - 1])
    ensures ParseFloat(s) == DecimalBody(s)
  {
    TrimmedParse(s);
    assert SignOf(s) == (false, s);
  }

  /** A minus sign before such a numeral negates its value. */
  lemma NegatedParse(t: string)
    requires |t| > 1 && t[0] == '-' && IsDigit(t[1]) && !IsNumberWhite(t[|t| - 1])
    ensures ParseFloat(t) == (match DecimalBody(t[1..]) case Success(m) => Success(-m) case Failure(e) => Failure(e))
  {
    TrimmedParse(t);
    MinusSigned(t);
  }

  /** A numeral without white space at either end is parsed as it stands. */
  lemma TrimmedParse(s: string)
    requires |s| > 0 && !IsNumberWhite(s[0]) && !IsNumberWhite(s[|s| - 1])
    ensures ParseFloat(s) == ParseSigned(s)
  {
    NoWhiteAround(s);
  }

  /** A leading minus negates the value of the body after it. */
  lemma MinusSigned(t: string)
    requires |t| > 0 && t[0] == '-'
    ensures ParseSigned(t) == (match DecimalBody(t[1..]) case Success(m) => Success(-m) case Failure(e) => Failure(e))
  {
    assert SignOf(t) == (true, t[1..]);
  }

  /** Digits alone: a whole number. */
  lemma DigitsBody(x: string)
    requires |x| > 0 && AllDigits(x)
    ensures DecimalBody(x) == Success(DigitsValue(x) as real)
  {
    if Text.IndexOf(x, ".").Some? {
      Text.OccursHead(x, ".", Text.IndexOf(x, ".").value);
    }
    var e: string := [];
    assert AllDigits(e) && DigitsValue(e) == 0;
    DecimalWhole(DigitsValue(x));
  }

  /** No fraction digits: the whole number itself. */
  lemma DecimalWhole(n: nat)
    ensures Decimal(n, 0, 0) == n as real
  {
    assert Pow10(0) == 1;
  }

  /** Digits, a point, digits: the whole part plus the scaled fraction. */
  lemma PointBody(x: string, f: string)
    requires |x| > 0 && AllDigits(x) && AllDigits(f)
    ensures DecimalBody(x + "." + f) == Success(Decimal(DigitsValue(x), DigitsValue(f), |f|))
  {
    var s := x + "." + f;
    assert Text.IsFirstOccurrence(s, ".", |x|) by {
      assert s[|x|..|x| + 1] == ".";
      forall q | 0 <= q < |x|
        ensures !Text.OccursAt(s, ".", q)
      {
        Text.OccursHead(s, ".", q);
      }
    }
    Text.IndexOfFirst(s, ".", |x|);
    assert s[..|x|] == x && s[|x| + 1..] == f;
  }
}
