/**
 Exact normalisation of JSON number tokens.  The code moves the decimal point and strips zeros
 inside strings; here every token denotes a real number, and normalisation is shown to be a
 canonical form for that number.
 */
module ExactNumber {
  import opened Outcomes
  import opened Digits

  datatype NumberError = NotANumber | ExponentLimit | LengthLimit

  const MAX_LENGTH: int := 10_000

  /** The captured groups of the number pattern. */
  datatype Token = Token(negative: bool, integer: string, fraction: string, exponent: int)

  predicate Well(token: Token) {
    token.integer != "" && AllDigits(token.integer) && AllDigits(token.fraction)
  }

  // ---- reading ----

  /** Length of the longest prefix of digits. */
  function DigitRun(s: string): (n: nat)
    ensures n <= |s| && AllDigits(s[..n])
    ensures n < |s| ==> !IsDigit(s[n])
  {
    if s == "" || !IsDigit(s[0]) then 0
    else
      var rest := DigitRun(s[1..]);
      assert s[..1 + rest] == [s[0]] + s[1..][..rest];
      1 + rest
  }

  function ParseExponent(s: string): Result<int, NumberError>
  {
    if s == "" then Ok(0)
    else if s[0] != 'e' && s[0] != 'E' then Err(NotANumber)
    else
      var signed := |s| > 1 && (s[1] == '+' || s[1] == '-');
      var digits := if signed then s[2..] else s[1..];
      if digits == "" || !AllDigits(digits) then Err(NotANumber)
      else
        var size: int := Number(digits);
        Ok(if signed && s[1] == '-' then 0 - size else size)
  }

  function ParseFraction(negative: bool, integer: string, s: string): (r: Result<Token, NumberError>)
    requires integer != "" && AllDigits(integer)
    ensures r.Ok? ==> Well(r.value) && r.value.negative == negative && r.value.integer == integer
  {
    var dotted := s != "" && s[0] == '.';
    var n := if dotted then DigitRun(s[1..]) else 0;
    if dotted && n == 0 then Err(NotANumber)
    else
      var fraction := if dotted then s[1..1 + n] else "";
      match ParseExponent(if dotted then s[1 + n..] else s)
      case Err(error) => Err(error)
      case Ok(exponent) =>
        assert dotted ==> fraction == s[1..][..n];
        Ok(Token(negative, integer, fraction, exponent))
  }

  function ParseUnsigned(negative: bool, s: string): (r: Result<Token, NumberError>)
    ensures r.Ok? ==> Well(r.value)
  {
    var n := DigitRun(s);
    if n == 0 then Err(NotANumber) else ParseFraction(negative, s[..n], s[n..])
  }

  /** `-`? digits (`.` digits)? ([eE] sign? digits)?, and nothing else. */
  function Parse(s: string): (r: Result<Token, NumberError>)
    ensures r.Ok? ==> Well(r.value)
  {
    if s != "" && s[0] == '-' then ParseUnsigned(true, s[1..]) else ParseUnsigned(false, s)
  }

  // ---- the number a token denotes ----

  function Signed(negative: bool, magnitude: real): real {
    if negative then -magnitude else magnitude
  }

  function Magnitude(digits: string, exponent: int): (m: real)
    requires AllDigits(digits)
    ensures m >= 0.0 && (m == 0.0 <==> Number(digits) == 0)
  {
    ShiftSign(Number(digits) as real, exponent);
    Shift(Number(digits) as real, exponent)
  }

  function TokenMagnitude(token: Token): (m: real)
    requires Well(token)
    ensures m >= 0.0
  {
    Magnitude(token.integer + token.fraction, token.exponent - |token.fraction|)
  }

  function TokenValue(token: Token): real
    requires Well(token)
  {
    Signed(token.negative, TokenMagnitude(token))
  }

  predicate Accepted(s: string) {
    Normalize(s).Ok?
  }

  function Value(s: string): real
    requires Parse(s).Ok?
  {
    TokenValue(Parse(s).value)
  }

  // ---- the code ----

  /** Drops leading zeros as long as a digit follows. */
  function StripLeading(s: string): (r: string)
    requires AllDigits(s) && s != ""
    ensures AllDigits(r) && r != "" && |r| <= |s|
    ensures |r| > 1 ==> r[0] != '0'
  {
    if |s| > 1 && s[0] == '0' then StripLeading(s[1..]) else s
  }

  function StripTrailing(s: string): (r: string)
    requires AllDigits(s)
    ensures AllDigits(r) && |r| <= |s|
    ensures r != "" ==> r[|r| - 1] != '0'
  {
    if s != "" && s[|s| - 1] == '0' then StripTrailing(s[..|s| - 1]) else s
  }

  /** The digits on either side of the moved decimal point. */
  function Expand(token: Token): (parts: (string, string))
    requires Well(token)
    ensures parts.0 != "" && AllDigits(parts.0) && AllDigits(parts.1)
  {
    var digits := token.integer + token.fraction;
    var decimalIndex := |token.integer| + token.exponent;
    if decimalIndex <= 0 then ("0", Zeros(-decimalIndex) + digits)
    else if decimalIndex >= |digits| then (digits + Zeros(decimalIndex - |digits|), "")
    else (digits[..decimalIndex], digits[decimalIndex..])
  }

  function Render(whole: string, fraction: string): string {
    if fraction == "" then whole else whole + "." + fraction
  }

  function NormalizeToken(token: Token): Result<string, NumberError>
    requires Well(token)
  {
    if token.exponent > MAX_LENGTH || token.exponent < -MAX_LENGTH then Err(ExponentLimit)
    else
      var parts := Expand(token);
      var magnitude := Render(StripLeading(parts.0), StripTrailing(parts.1));
      if |magnitude| > MAX_LENGTH then Err(LengthLimit)
      else Ok(if token.negative && magnitude != "0" then "-" + magnitude else magnitude)
  }

  function Normalize(s: string): Result<string, NumberError> {
    match Parse(s)
    case Err(error) => Err(error)
    case Ok(token) => NormalizeToken(token)
  }

  // ---- canonical form ----

  /** No exponent, no superfluous zero on either side, no negative zero. */
  predicate CanonicalToken(token: Token) {
    && Well(token)
    && token.exponent == 0
    && (|token.integer| > 1 ==> token.integer[0] != '0')
    && (token.fraction != "" ==> token.fraction[|token.fraction| - 1] != '0')
    && !(token.negative && token.integer == "0" && token.fraction == "")
  }

  function Spell(token: Token): string {
    (if token.negative then "-" else "") + Render(token.integer, token.fraction)
  }

  predicate Canonical(s: string) {
    Parse(s).Ok? && CanonicalToken(Parse(s).value) && s == Spell(Parse(s).value)
  }

  lemma {:induction false} DigitRunOfDigits(digits: string, rest: string)
    requires AllDigits(digits) && (rest != "" ==> !IsDigit(rest[0]))
    ensures DigitRun(digits + rest) == |digits|
  {
    if digits == "" {
      assert digits + rest == rest;
    } else {
      DigitRunOfDigits(digits[1..], rest);
      assert (digits + rest)[1..] == digits[1..] + rest;
    }
  }

  lemma ParseFractionRest(negative: bool, integer: string, fraction: string)
    requires integer != "" && AllDigits(integer) && AllDigits(fraction)
    ensures ParseFraction(negative, integer, if fraction == "" then "" else "." + fraction)
            == Ok(Token(negative, integer, fraction, 0))
  {
    var rest := if fraction == "" then "" else "." + fraction;
    if fraction != "" {
      assert rest[1..] == fraction + "";
      DigitRunOfDigits(fraction, "");
      assert rest[1..1 + |fraction|] == fraction && rest[1 + |fraction|..] == "";
    }
  }

  lemma ParseRender(negative: bool, integer: string, fraction: string)
    requires integer != "" && AllDigits(integer) && AllDigits(fraction)
    ensures ParseUnsigned(negative, Render(integer, fraction)) == Ok(Token(negative, integer, fraction, 0))
  {
    var rest := if fraction == "" then "" else "." + fraction;
    var body := integer + rest;
    assert Render(integer, fraction) == body;
    DigitRunOfDigits(integer, rest);
    assert body[..|integer|] == integer && body[|integer|..] == rest;
    ParseFractionRest(negative, integer, fraction);
  }

  /** Reading back what was spelled gives the same token. */
  lemma ParseSpell(token: Token)
    requires Well(token) && token.exponent == 0
    ensures Parse(Spell(token)) == Ok(token)
  {
    var body := Render(token.integer, token.fraction);
    assert body[0] == token.integer[0];
    if token.negative {
      assert ("-" + body)[1..] == body;
    } else {
      assert "" + body == body;
    }
    ParseRender(token.negative, token.integer, token.fraction);
  }

  // ---- normalisation keeps the number ----

  lemma {:induction false} StripLeadingKeeps(s: string, fraction: string)
    requires AllDigits(s) && s != "" && AllDigits(fraction)
    ensures Number(StripLeading(s) + fraction) == Number(s + fraction)
  {
    if |s| > 1 && s[0] == '0' {
      StripLeadingKeeps(s[1..], fraction);
      assert s + fraction == Zeros(1) + (s[1..] + fraction) by {
        assert Zeros(1) == "0";
      }
      PadLeft(1, s[1..] + fraction);
    }
  }

  lemma {:induction false} StripTrailingKeeps(whole: string, s: string)
    requires AllDigits(whole) && AllDigits(s)
    ensures Magnitude(whole + StripTrailing(s), -|StripTrailing(s)|) == Magnitude(whole + s, -|s|)
  {
    if s != "" && s[|s| - 1] == '0' {
      var front := s[..|s| - 1];
      StripTrailingKeeps(whole, front);
      assert whole + s == (whole + front) + Zeros(1) by {
        assert Zeros(1) == "0";
      }
      PadRight(whole + front, 1);
      ShiftNatural(Number(whole + front), 1);
      ShiftAdd(Number(whole + front) as real, 1, -|s|);
    }
  }

  lemma PaddedMagnitude(digits: string, shift: nat)
    requires AllDigits(digits) && AllDigits(digits + Zeros(shift))
    ensures Magnitude(digits + Zeros(shift), 0) == Magnitude(digits, shift)
  {
    PadRight(digits, shift);
    ShiftNatural(Number(digits), shift);
  }

  lemma ExpandKeeps(token: Token)
    requires Well(token)
    ensures AllDigits(token.integer + token.fraction)
    ensures AllDigits(Expand(token).0 + Expand(token).1)
    ensures Magnitude(Expand(token).0 + Expand(token).1, -|Expand(token).1|)
            == Magnitude(token.integer + token.fraction, token.exponent - |token.fraction|)
  {
    var digits := token.integer + token.fraction;
    var decimalIndex := |token.integer| + token.exponent;
    if decimalIndex <= 0 {
      assert "0" + (Zeros(-decimalIndex) + digits) == Zeros(1) + (Zeros(-decimalIndex) + digits) by {
        assert Zeros(1) == "0";
      }
      PadLeft(1, Zeros(-decimalIndex) + digits);
      PadLeft(-decimalIndex, digits);
    } else if decimalIndex >= |digits| {
      PaddedMagnitude(digits, decimalIndex - |digits|);
      assert Expand(token).0 + Expand(token).1 == digits + Zeros(decimalIndex - |digits|);
    } else {
      assert digits[..decimalIndex] + digits[decimalIndex..] == digits;
    }
  }

  /** The token the normalised string spells. */
  function NormalToken(token: Token): (normal: Token)
    requires Well(token)
    ensures CanonicalToken(normal)
  {
    var whole, fraction := StripLeading(Expand(token).0), StripTrailing(Expand(token).1);
    Token(token.negative && Render(whole, fraction) != "0", whole, fraction, 0)
  }

  lemma StripKeeps(whole: string, fraction: string)
    requires AllDigits(whole) && whole != "" && AllDigits(fraction)
    ensures AllDigits(whole + fraction) && AllDigits(StripLeading(whole) + StripTrailing(fraction))
    ensures Magnitude(StripLeading(whole) + StripTrailing(fraction), -|StripTrailing(fraction)|)
            == Magnitude(whole + fraction, -|fraction|)
  {
    StripTrailingKeeps(whole, fraction);
    StripLeadingKeeps(whole, StripTrailing(fraction));
  }

  lemma OnlyZeroRendersAsZero(whole: string, fraction: string)
    requires AllDigits(whole) && whole != "" && AllDigits(fraction)
    ensures Render(whole, fraction) == "0" <==> whole == "0" && fraction == ""
    ensures Render(whole, fraction) == "0" ==> AllDigits(whole + fraction) && Number(whole + fraction) == 0
  {
    if fraction != "" {
      assert |Render(whole, fraction)| > 1;
    } else if whole == "0" {
      assert whole + fraction == Zeros(1);
      NumberOfZeros(1);
    }
  }

  lemma NormalTokenKeepsMagnitude(token: Token)
    requires Well(token)
    ensures TokenMagnitude(NormalToken(token)) == TokenMagnitude(token)
  {
    ExpandKeeps(token);
    StripKeeps(Expand(token).0, Expand(token).1);
  }

  lemma NormalTokenSign(token: Token)
    requires Well(token)
    ensures NormalToken(token).negative != token.negative ==> TokenMagnitude(NormalToken(token)) == 0.0
  {
    OnlyZeroRendersAsZero(NormalToken(token).integer, NormalToken(token).fraction);
  }

  lemma NormalTokenKeepsValue(token: Token)
    requires Well(token)
    ensures TokenValue(NormalToken(token)) == TokenValue(token)
  {
    NormalTokenKeepsMagnitude(token);
    NormalTokenSign(token);
  }

  /** The output is canonical, short enough, and denotes the number the input denoted. */
  lemma NormalizeIsExact(s: string)
    requires Accepted(s)
    ensures Canonical(Normalize(s).value)
    ensures Value(Normalize(s).value) == Value(s)
  {
    var token := Parse(s).value;
    NormalTokenKeepsValue(token);
    ParseSpell(NormalToken(token));
    assert Normalize(s).value == Spell(NormalToken(token));
  }

  lemma CanonicalStripsNothing(token: Token)
    requires CanonicalToken(token)
    ensures NormalToken(token) == token
  {
    var digits := token.integer + token.fraction;
    if token.fraction == "" {
      assert Zeros(0) == "" && digits + Zeros(0) == token.integer;
    } else {
      assert digits[..|token.integer|] == token.integer && digits[|token.integer|..] == token.fraction;
    }
    assert Expand(token) == (token.integer, token.fraction);
    OnlyZeroRendersAsZero(token.integer, token.fraction);
  }

  lemma NormalizeIsIdempotent(s: string)
    requires Accepted(s)
    ensures Normalize(Normalize(s).value) == Normalize(s)
  {
    var normal := NormalToken(Parse(s).value);
    ParseSpell(normal);
    CanonicalStripsNothing(normal);
    assert Normalize(s).value == Spell(normal);
  }

  // ---- one canonical string per number ----

  lemma CanonicalZero(token: Token)
    requires CanonicalToken(token)
    requires AllDigits(token.integer + token.fraction) && Number(token.integer + token.fraction) == 0
    ensures !token.negative && token.integer == "0" && token.fraction == ""
  {
    var digits := token.integer + token.fraction;
    assert forall i :: 0 <= i < |token.integer| ==> token.integer[i] == digits[i];
    assert token.fraction != "" ==> token.fraction[|token.fraction| - 1] == digits[|digits| - 1];
    NumberOfZeros(|digits|);
    NumberInjective(digits, Zeros(|digits|));
  }

  /** Equal magnitudes leave no room for a longer fraction, which would end in a zero. */
  lemma SameFractionLength(a: Token, b: Token)
    requires CanonicalToken(a) && CanonicalToken(b) && |a.fraction| <= |b.fraction|
    requires AllDigits(a.integer + a.fraction) && AllDigits(b.integer + b.fraction)
    requires Magnitude(a.integer + a.fraction, -|a.fraction|) == Magnitude(b.integer + b.fraction, -|b.fraction|)
    ensures |a.fraction| == |b.fraction|
    ensures Number(a.integer + a.fraction) == Number(b.integer + b.fraction)
  {
    AlignScales(Number(a.integer + a.fraction), Number(b.integer + b.fraction), |a.fraction|,
                |b.fraction| - |a.fraction|);
    if b.fraction != "" {
      LastDigitShows(b, Number(a.integer + a.fraction), |b.fraction| - |a.fraction|);
    }
  }

  /** A fraction does not end in a zero, so its digits are no multiple of ten. */
  lemma LastDigitShows(token: Token, x: nat, extra: nat)
    requires CanonicalToken(token) && token.fraction != "" && AllDigits(token.integer + token.fraction)
    requires Number(token.integer + token.fraction) == TimesTens(x, extra)
    ensures extra == 0
  {
    var digits := token.integer + token.fraction;
    assert digits[|digits| - 1] == token.fraction[|token.fraction| - 1];
    assert DigitValue(digits[|digits| - 1]) > 0;
    NoMultiple(Number(digits[..|digits| - 1]), DigitValue(digits[|digits| - 1]), x, extra);
  }

  lemma NoMultiple(tens: nat, digit: nat, x: nat, extra: nat)
    requires 0 < digit < 10 && 10 * tens + digit == TimesTens(x, extra)
    ensures extra == 0
  {
    EndsInZero(x, extra);
  }

  lemma EndsInZero(x: nat, n: nat)
    ensures n > 0 ==> TimesTens(x, n) % 10 == 0
  {
    assert n > 0 ==> TimesTens(x, n) == 10 * TimesTens(x, n - 1);
  }

  lemma AlignScales(x: nat, y: nat, scale: nat, extra: nat)
    requires Shift(x as real, 0 - scale) == Shift(y as real, 0 - (scale + extra))
    ensures y == TimesTens(x, extra)
  {
    ShiftAdd(x as real, extra, 0 - (scale + extra));
    ShiftInjective(Shift(x as real, extra), y as real, 0 - (scale + extra));
    ShiftNatural(x, extra);
  }

  lemma SameDigits(a: Token, b: Token)
    requires CanonicalToken(a) && CanonicalToken(b)
    requires |a.fraction| == |b.fraction| && |a.integer| <= |b.integer|
    requires AllDigits(a.integer + a.fraction) && AllDigits(b.integer + b.fraction)
    requires Number(a.integer + a.fraction) == Number(b.integer + b.fraction)
    ensures a.integer == b.integer && a.fraction == b.fraction
  {
    var x, y := a.integer + a.fraction, b.integer + b.fraction;
    NumberBelow(x);
    if |a.integer| < |b.integer| {
      LongerIsLarger(b, |x|);
    } else {
      NumberInjective(x, y);
      assert a.integer == x[..|a.integer|] && b.integer == y[..|b.integer|];
      assert a.fraction == x[|a.integer|..] && b.fraction == y[|b.integer|..];
    }
  }

  lemma LongerIsLarger(token: Token, length: nat)
    requires CanonicalToken(token) && |token.integer| > 1
    requires length < |token.integer + token.fraction| && AllDigits(token.integer + token.fraction)
    ensures Ten(length) <= Number(token.integer + token.fraction)
  {
    var digits := token.integer + token.fraction;
    assert digits[0] == token.integer[0];
    NumberAtLeast(digits);
    TenMonotone(length, |digits| - 1);
  }

  lemma SameMagnitude(a: Token, b: Token)
    requires CanonicalToken(a) && CanonicalToken(b)
    requires AllDigits(a.integer + a.fraction) && AllDigits(b.integer + b.fraction)
    requires Magnitude(a.integer + a.fraction, -|a.fraction|) == Magnitude(b.integer + b.fraction, -|b.fraction|)
    ensures a.integer == b.integer && a.fraction == b.fraction
  {
    if |a.fraction| <= |b.fraction| {
      SameFractionLength(a, b);
    } else {
      SameFractionLength(b, a);
    }
    if |a.integer| <= |b.integer| {
      SameDigits(a, b);
    } else {
      SameDigits(b, a);
    }
  }

  lemma PositiveMagnitude(token: Token)
    requires CanonicalToken(token) && token.negative
    ensures AllDigits(token.integer + token.fraction)
    ensures Magnitude(token.integer + token.fraction, -|token.fraction|) > 0.0
  {
    if Number(token.integer + token.fraction) == 0 {
      CanonicalZero(token);
    }
  }

  lemma CanonicalTokenUnique(a: Token, b: Token)
    requires CanonicalToken(a) && CanonicalToken(b) && TokenValue(a) == TokenValue(b)
    ensures a == b
  {
    if a.negative {
      PositiveMagnitude(a);
    }
    if b.negative {
      PositiveMagnitude(b);
    }
    SameMagnitude(a, b);
  }

  /** Two accepted tokens normalise to one string exactly when they denote one number. */
  lemma NormalizeDecidesEquality(s: string, t: string)
    requires Accepted(s) && Accepted(t)
    ensures Normalize(s) == Normalize(t) <==> Value(s) == Value(t)
  {
    NormalizeIsExact(s);
    NormalizeIsExact(t);
    if Value(s) == Value(t) {
      CanonicalTokenUnique(Parse(Normalize(s).value).value, Parse(Normalize(t).value).value);
    }
  }

  /** A well-formed token is rejected only for its exponent or for the length of its canonical digits. */
  lemma AcceptedExactly(s: string, canonical: string)
    requires Parse(s).Ok? && Canonical(canonical) && Value(canonical) == Value(s)
    ensures Accepted(s) <==>
            -MAX_LENGTH <= Parse(s).value.exponent <= MAX_LENGTH
            && |canonical| <= MAX_LENGTH + if Parse(canonical).value.negative then 1 else 0
  {
    NormalTokenKeepsValue(Parse(s).value);
    CanonicalTokenUnique(NormalToken(Parse(s).value), Parse(canonical).value);
  }

  predicate TokenChar(c: char) {
    IsDigit(c) || c == '-' || c == '+' || c == '.' || c == 'e' || c == 'E'
  }

  predicate TokenChars(s: string) {
    forall i :: 0 <= i < |s| ==> TokenChar(s[i])
  }

  lemma TokenCharsJoin(a: string, b: string)
    requires TokenChars(a) && TokenChars(b)
    ensures TokenChars(a + b)
  {
  }

  lemma ParsedCharacters(s: string)
    requires Parse(s).Ok?
    ensures s != "" && (s[0] == '-' || IsDigit(s[0]))
    ensures TokenChars(s)
  {
    if s[0] == '-' {
      ParsedUnsignedCharacters(true, s[1..]);
      TokenCharsJoin("-", s[1..]);
      assert s == "-" + s[1..];
    } else {
      ParsedUnsignedCharacters(false, s);
    }
  }

  lemma ParsedUnsignedCharacters(negative: bool, s: string)
    requires ParseUnsigned(negative, s).Ok?
    ensures s != "" && IsDigit(s[0])
    ensures TokenChars(s)
  {
    var n := DigitRun(s);
    ParsedFractionCharacters(negative, s[..n], s[n..]);
    TokenCharsJoin(s[..n], s[n..]);
    assert s == s[..n] + s[n..];
    assert s[0] == s[..n][0];
  }

  lemma SplitAfterFirst(s: string, n: nat)
    requires 1 + n <= |s| && TokenChar(s[0]) && TokenChars(s[1..][..n]) && TokenChars(s[1 + n..])
    ensures TokenChars(s)
  {
    forall i | 0 <= i < |s|
      ensures TokenChar(s[i])
    {
      assert 1 <= i < 1 + n ==> s[i] == s[1..][..n][i - 1];
      assert 1 + n <= i ==> s[i] == s[1 + n..][i - 1 - n];
    }
  }

  lemma ParsedFractionCharacters(negative: bool, integer: string, s: string)
    requires integer != "" && AllDigits(integer)
    requires ParseFraction(negative, integer, s).Ok?
    ensures TokenChars(s)
  {
    if s != "" && s[0] == '.' {
      var n := DigitRun(s[1..]);
      ParsedExponentCharacters(s[1 + n..]);
      SplitAfterFirst(s, n);
    } else {
      ParsedExponentCharacters(s);
    }
  }

  lemma ParsedExponentCharacters(s: string)
    requires ParseExponent(s).Ok?
    ensures TokenChars(s)
  {
    if s != "" {
      var digits := if |s| > 1 && (s[1] == '+' || s[1] == '-') then s[2..] else s[1..];
      TokenCharsJoin(s[..|s| - |digits|], digits);
      assert s == s[..|s| - |digits|] + digits;
    }
  }
}
