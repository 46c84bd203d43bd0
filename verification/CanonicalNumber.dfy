/**
 How the canonical form prints numbers: natively when the double prints back to exactly the same
 number, exactly otherwise.  Number-to-string conversion (section 6.1.6.1.20 of ECMA-262) is a
 parameter; the two zeros, which print alike, are one double.
 */
module CanonicalNumber {
  import opened Outcomes
  import opened ExactNumber

  /** `toNumber` is None when the conversion overflows; `spell` is JSON.stringify of a double. */
  datatype Doubles<!D> = Doubles(toNumber: string -> Option<D>, spell: D -> string)

  /** Conversion looks only at the exact number a token denotes, and undoes printing. */
  ghost predicate Faithful<D(!new)>(doubles: Doubles<D>) {
    && (forall s, t {:trigger doubles.toNumber(s), doubles.toNumber(t)} ::
          Parse(s).Ok? && Parse(t).Ok? && Value(s) == Value(t) ==> doubles.toNumber(s) == doubles.toNumber(t))
    && (forall d {:trigger doubles.spell(d)} ::
        Accepted(doubles.spell(d)) && doubles.toNumber(doubles.spell(d)) == Some(d))
  }

  function CanonicalizeToken<D>(doubles: Doubles<D>, token: string): Result<string, NumberError> {
    Printed(doubles, Normalize(token), doubles.toNumber(token))
  }

  /** The native text when it is exactly the number, and the exact text otherwise. */
  function Printed<D>(doubles: Doubles<D>, exact: Result<string, NumberError>,
                      double: Option<D>): Result<string, NumberError> {
    if exact.Err? then exact
    else match double
      case None => exact
      case Some(d) =>
        var native := doubles.spell(d);
        var again := Normalize(native);
        if again.Err? then again
        else if again == exact then Ok(native) else exact
  }

  lemma CanonicalizeTokenIsExact<D(!new)>(doubles: Doubles<D>, token: string)
    requires Faithful(doubles)
    ensures CanonicalizeToken(doubles, token).Ok? <==> Accepted(token)
    ensures Accepted(token) ==>
              var output := CanonicalizeToken(doubles, token).value;
              Accepted(output) && Value(output) == Value(token) && Normalize(output) == Normalize(token)
  {
    if Accepted(token) {
      NormalizeIsExact(token);
      NormalizeIsIdempotent(token);
      var output := CanonicalizeToken(doubles, token).value;
      NormalizeDecidesEquality(output, token);
    }
  }

  /** Two accepted tokens print alike exactly when they denote the same number. */
  lemma CanonicalizeTokenDecidesEquality<D(!new)>(doubles: Doubles<D>, s: string, t: string)
    requires Faithful(doubles) && Accepted(s) && Accepted(t)
    ensures CanonicalizeToken(doubles, s) == CanonicalizeToken(doubles, t) <==> Value(s) == Value(t)
  {
    NormalizeDecidesEquality(s, t);
    if Value(s) == Value(t) {
      assert doubles.toNumber(s) == doubles.toNumber(t);
    } else {
      CanonicalizeTokenIsExact(doubles, s);
      CanonicalizeTokenIsExact(doubles, t);
    }
  }

  /** A token that denotes a double's printed value is printed the way the double is. */
  lemma TokenMeetsDouble<D(!new)>(doubles: Doubles<D>, token: string, d: D)
    requires Faithful(doubles) && Accepted(token)
    ensures CanonicalizeToken(doubles, token) == Ok(doubles.spell(d)) <==> Value(token) == Value(doubles.spell(d))
  {
    CanonicalizeTokenIsExact(doubles, token);
    NormalizeDecidesEquality(token, doubles.spell(d));
  }

  lemma DoublesMeet<D(!new)>(doubles: Doubles<D>, a: D, b: D)
    requires Faithful(doubles)
    ensures a == b <==> Value(doubles.spell(a)) == Value(doubles.spell(b))
  {
    assert doubles.toNumber(doubles.spell(a)) == Some(a) && doubles.toNumber(doubles.spell(b)) == Some(b);
  }
}
