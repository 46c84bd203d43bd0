/**
 Strings of UTF-16 code units and their quoted JSON form (section 7 of RFC 8259, with the lone
 surrogates escaped as section 25.5.2.3 of ECMA-262 asks).  Quoting is uniquely decodable.
 */
module JsonText {

  type Unit = u: int | 0 <= u < 0x1_0000

  type Text = seq<Unit>

  /** The code units of a text of ASCII characters. */
  function AsciiText(s: string): Text {
    if s == "" then [] else [s[0] as int % 0x1_0000] + AsciiText(s[1..])
  }

  const QUOTE: Unit := 34
  const BACKSLASH: Unit := 92

  predicate HighSurrogate(u: Unit) {
    0xD800 <= u < 0xDC00
  }

  predicate LowSurrogate(u: Unit) {
    0xDC00 <= u < 0xE000
  }

  function Hex(d: int): Unit
    requires 0 <= d < 16
  {
    if d < 10 then 48 + d else 87 + d
  }

  /** \uXXXX with lower-case digits. */
  function UnicodeEscape(u: Unit): Text {
    [BACKSLASH, 117, Hex(u / 0x1000), Hex(u / 0x100 % 16), Hex(u / 0x10 % 16), Hex(u % 16)]
  }

  function EscapeUnit(u: Unit): Text {
    if u == 8 then [BACKSLASH, 98]
    else if u == 9 then [BACKSLASH, 116]
    else if u == 10 then [BACKSLASH, 110]
    else if u == 12 then [BACKSLASH, 102]
    else if u == 13 then [BACKSLASH, 114]
    else if u == QUOTE then [BACKSLASH, QUOTE]
    else if u == BACKSLASH then [BACKSLASH, BACKSLASH]
    else if u < 32 || HighSurrogate(u) || LowSurrogate(u) then UnicodeEscape(u)
    else [u]
  }

  predicate StartsWithPair(s: Text) {
    |s| >= 2 && HighSurrogate(s[0]) && LowSurrogate(s[1])
  }

  /** How many units the next code point takes, and how it is written. */
  function Width(s: Text): (n: nat)
    requires s != []
    ensures 1 <= n <= |s|
  {
    if StartsWithPair(s) then 2 else 1
  }

  function Chunk(s: Text): Text
    requires s != []
  {
    if StartsWithPair(s) then s[..2] else EscapeUnit(s[0])
  }

  function Escape(s: Text): Text {
    if s == [] then [] else Chunk(s) + Escape(s[Width(s)..])
  }

  /** JSON.stringify of a string. */
  function Quote(s: Text): Text {
    [QUOTE] + Escape(s) + [QUOTE]
  }

  lemma UnicodeEscapeInjective(a: Unit, b: Unit)
    requires UnicodeEscape(a) == UnicodeEscape(b)
    ensures a == b
  {
    var x, y := UnicodeEscape(a), UnicodeEscape(b);
    assert x[2] == y[2] && x[3] == y[3] && x[4] == y[4] && x[5] == y[5];
    HexDigits(a);
    HexDigits(b);
  }

  lemma HexDigits(u: Unit)
    ensures u == 0x1000 * (u / 0x1000) + 0x100 * (u / 0x100 % 16) + 0x10 * (u / 0x10 % 16) + u % 16
  {
    assert u / 0x100 == 16 * (u / 0x1000) + u / 0x100 % 16;
    assert u / 0x10 == 16 * (u / 0x100) + u / 0x10 % 16;
  }

  lemma EscapeUnitDecodes(a: Unit, b: Unit, x: Text, y: Text)
    requires EscapeUnit(a) + x == EscapeUnit(b) + y
    ensures a == b
  {
    var p, q := EscapeUnit(a), EscapeUnit(b);
    assert (p + x)[0] == p[0] && (q + y)[0] == q[0];
    if |p| > 1 && |q| > 1 {
      assert (p + x)[1] == p[1] && (q + y)[1] == q[1];
      if |p| == 6 {
        assert (p + x)[..6] == p && (q + y)[..6] == q;
        UnicodeEscapeInjective(a, b);
      }
    }
  }

  /** The next chunk tells which units it came from. */
  lemma ChunkDecodes(s: Text, t: Text, x: Text, y: Text)
    requires s != [] && t != []
    requires Chunk(s) + x == Chunk(t) + y
    ensures Width(s) == Width(t) && s[..Width(s)] == t[..Width(t)] && x == y
  {
    var p, q := Chunk(s), Chunk(t);
    assert (p + x)[0] == p[0] && (q + y)[0] == q[0];
    if StartsWithPair(s) || StartsWithPair(t) {
      assert StartsWithPair(s) && StartsWithPair(t);
      assert (p + x)[..2] == p && (q + y)[..2] == q;
    } else {
      EscapeUnitDecodes(s[0], t[0], x, y);
    }
    assert x == (p + x)[|p|..] && y == (q + y)[|q|..];
  }

  /** Escaped text up to the closing quote, then whatever follows. */
  function Closed(s: Text, rest: Text): Text {
    Escape(s) + [QUOTE] + rest
  }

  lemma ClosedEmpty(rest: Text)
    ensures Closed([], rest) == [QUOTE] + rest
  {
  }

  lemma ClosedStep(s: Text, rest: Text)
    requires s != []
    ensures Closed(s, rest) == Chunk(s) + Closed(s[Width(s)..], rest)
    ensures Chunk(s) != [] && Chunk(s)[0] != QUOTE && Closed(s, rest)[0] == Chunk(s)[0]
  {
  }

  lemma {:induction false} EscapeDecodes(s: Text, t: Text, x: Text, y: Text)
    requires Closed(s, x) == Closed(t, y)
    ensures s == t && x == y
    decreases |s|
  {
    if s != [] {
      ClosedStep(s, x);
    } else {
      ClosedEmpty(x);
    }
    if t != [] {
      ClosedStep(t, y);
    } else {
      ClosedEmpty(y);
    }
    assert s == [] <==> t == [] by {
      assert ([QUOTE] + x)[0] == QUOTE == ([QUOTE] + y)[0];
    }
    if s == [] {
      assert x == ([QUOTE] + x)[1..] && y == ([QUOTE] + y)[1..];
    } else {
      ChunkDecodes(s, t, Closed(s[Width(s)..], x), Closed(t[Width(t)..], y));
      EscapeDecodes(s[Width(s)..], t[Width(t)..], x, y);
      assert s == s[..Width(s)] + s[Width(s)..] && t == t[..Width(t)] + t[Width(t)..];
    }
  }

  /** Two quoted strings that agree with what follows them are the same string. */
  lemma QuoteDecodes(s: Text, t: Text, x: Text, y: Text)
    requires Quote(s) + x == Quote(t) + y
    ensures s == t && x == y
  {
    assert Quote(s) + x == [QUOTE] + Closed(s, x) && Quote(t) + y == [QUOTE] + Closed(t, y);
    assert ([QUOTE] + Closed(s, x))[1..] == Closed(s, x) && ([QUOTE] + Closed(t, y))[1..] == Closed(t, y);
    EscapeDecodes(s, t, x, y);
  }

  // ---- key order: by code unit ----

  predicate Below(a: Text, b: Text) {
    b != [] && (a == [] || a[0] < b[0] || (a[0] == b[0] && Below(a[1..], b[1..])))
  }

  lemma {:induction false} BelowTotal(a: Text, b: Text)
    ensures Below(a, b) || Below(b, a) || a == b
    ensures !(Below(a, b) && Below(b, a))
    ensures !Below(a, a)
  {
    if a != [] && b != [] {
      BelowTotal(a[1..], b[1..]);
      assert a == [a[0]] + a[1..] && b == [b[0]] + b[1..];
    }
    if a != [] {
      BelowTotal(a[1..], a[1..]);
    }
  }

  lemma {:induction false} BelowTransitive(a: Text, b: Text, c: Text)
    requires Below(a, b) && Below(b, c)
    ensures Below(a, c)
  {
    if a != [] && a[0] == b[0] == c[0] {
      BelowTransitive(a[1..], b[1..], c[1..]);
    }
  }
}
