/** Printed trees are uniquely decodable, so canonical text decides equivalence of trees. */
module CanonicalJsonDecoding {
  import opened Digits
  import opened ExactNumber
  import opened CanonicalNumber
  import opened JsonText
  import opened CanonicalJson
  import opened Sequences

  /** Equality of trees whose members come in the same order, up to the spelling of numbers. */
  ghost predicate Alike<D(!new)>(doubles: Doubles<D>, a: Json<D>, b: Json<D>) {
    if IsNumber(a) && IsNumber(b) then SameNumber(doubles, a, b)
    else match a
      case Arr(items) =>
        b.Arr? && |items| == |b.items| && forall i :: 0 <= i < |items| ==> Alike(doubles, items[i], b.items[i])
      case Obj(members) =>
        && b.Obj? && |members| == |b.members|
        && forall i :: 0 <= i < |members| ==>
             members[i].key == b.members[i].key && Alike(doubles, members[i].value, b.members[i].value)
      case _ => a == b
  }

  /** What can follow a value: the end, or a comma or a closing bracket. */
  predicate Delimited(rest: Text) {
    rest == [] || rest[0] == COMMA || rest[0] == CLOSE_BRACKET || rest[0] == CLOSE_BRACE
  }

  // ---- numbers ----

  lemma {:induction false} AsciiTextDecodes(s: string, t: string, x: Text, y: Text)
    requires TokenChars(s) && TokenChars(t) && Delimited(x) && Delimited(y)
    requires AsciiText(s) + x == AsciiText(t) + y
    ensures s == t && x == y
  {
    AsciiTextHead(s, x);
    AsciiTextHead(t, y);
    if s != [] && t != [] {
      Cut([s[0] as int], AsciiText(s[1..]) + x, AsciiText(t[1..]) + y);
      AsciiTextDecodes(s[1..], t[1..], x, y);
      assert s == [s[0]] + s[1..] && t == [t[0]] + t[1..];
    }
  }

  lemma AsciiTextHead(s: string, x: Text)
    requires TokenChars(s)
    ensures s == [] ==> AsciiText(s) + x == x
    ensures s != [] ==> AsciiText(s) + x == [s[0] as int] + (AsciiText(s[1..]) + x)
    ensures s != [] ==> (AsciiText(s) + x)[0] == s[0] as int
  {
  }

  /** The string a number leaf prints as. */
  function Spelled<D>(doubles: Doubles<D>, j: Json<D>): string
    requires IsNumber(j) && (j.Lossless? ==> CanonicalizeToken(doubles, j.token).Ok?)
  {
    if j.Native? then doubles.spell(j.d) else CanonicalizeToken(doubles, j.token).value
  }

  lemma SpelledIsExact<D(!new)>(doubles: Doubles<D>, j: Json<D>)
    requires Faithful(doubles) && IsNumber(j) && Admissible(j)
    ensures j.Lossless? ==> CanonicalizeToken(doubles, j.token).Ok?
    ensures PrintNumber(doubles, j) == AsciiText(Spelled(doubles, j))
    ensures Accepted(Spelled(doubles, j)) && Parse(SpelledNumber(doubles, j)).Ok?
    ensures Value(Spelled(doubles, j)) == Value(SpelledNumber(doubles, j))
  {
    if j.Lossless? {
      CanonicalizeTokenIsExact(doubles, j.token);
    }
  }

  /** Number leaves print alike exactly when they are the same number. */
  lemma SpelledDecides<D(!new)>(doubles: Doubles<D>, a: Json<D>, b: Json<D>)
    requires Faithful(doubles) && IsNumber(a) && Admissible(a) && IsNumber(b) && Admissible(b)
    ensures a.Lossless? ==> CanonicalizeToken(doubles, a.token).Ok?
    ensures b.Lossless? ==> CanonicalizeToken(doubles, b.token).Ok?
    ensures Spelled(doubles, a) == Spelled(doubles, b) <==> SameNumber(doubles, a, b)
  {
    SpelledIsExact(doubles, a);
    SpelledIsExact(doubles, b);
    match (a, b)
    case (Native(d), Native(e)) => DoublesMeet(doubles, d, e);
    case (Lossless(s), Lossless(t)) => CanonicalizeTokenDecidesEquality(doubles, s, t);
    case (Native(d), Lossless(t)) => TokenMeetsDouble(doubles, t, d);
    case (Lossless(s), Native(e)) => TokenMeetsDouble(doubles, s, e);
  }

  // ---- sequences ----

  lemma Cut(p: Text, x: Text, y: Text)
    requires p + x == p + y
    ensures x == y
  {
    assert (p + x)[|p|..] == x && (p + y)[|p|..] == y;
  }

  lemma FirstOf(p: Text, x: Text)
    requires p != []
    ensures (p + x)[0] == p[0]
  {
  }

  // ---- first units ----

  /** The unit a printed value starts with tells its kind. */
  predicate StartsLike<D>(j: Json<D>, u: Unit) {
    match j
    case Null => u == 110
    case Bool(b) => u == if b then 116 else 102
    case Str(_) => u == QUOTE
    case Arr(_) => u == OPEN_BRACKET
    case Obj(_) => u == OPEN_BRACE
    case _ => u == 45 || 48 <= u <= 57
  }

  lemma FirstUnitOfToken(s: string)
    requires s != "" && TokenChars(s) && (s[0] == '-' || IsDigit(s[0]))
    ensures AsciiText(s) != [] && (AsciiText(s)[0] == 45 || 48 <= AsciiText(s)[0] <= 57)
  {
    AsciiTextHead(s, []);
    assert AsciiText(s) + [] == AsciiText(s);
  }

  lemma FirstUnitOfNumber<D(!new)>(doubles: Doubles<D>, j: Json<D>)
    requires Faithful(doubles) && Admissible(j) && IsNumber(j)
    ensures PrintNumber(doubles, j) != [] && StartsLike(j, PrintNumber(doubles, j)[0])
  {
    SpelledIsExact(doubles, j);
    ParsedCharacters(Spelled(doubles, j));
    FirstUnitOfToken(Spelled(doubles, j));
  }

  lemma FirstUnit<D(!new)>(doubles: Doubles<D>, j: Json<D>)
    requires Faithful(doubles) && Admissible(j)
    ensures Print(doubles, j) != [] && StartsLike(j, Print(doubles, j)[0])
  {
    match j
    case Native(_) => FirstUnitOfNumber(doubles, j);
    case Lossless(_) => FirstUnitOfNumber(doubles, j);
    case Arr(items) => FirstOf([OPEN_BRACKET], PrintItems(doubles, items));
    case Obj(members) => FirstOf([OPEN_BRACE], PrintMembers(doubles, members));
    case _ =>
  }

  // ---- decoding ----

  lemma NumbersDecode<D(!new)>(doubles: Doubles<D>, a: Json<D>, b: Json<D>, x: Text, y: Text)
    requires Faithful(doubles) && Admissible(a) && Admissible(b) && IsNumber(a) && IsNumber(b)
    requires Delimited(x) && Delimited(y)
    requires PrintNumber(doubles, a) + x == PrintNumber(doubles, b) + y
    ensures SameNumber(doubles, a, b) && x == y
  {
    SpelledDecides(doubles, a, b);
    SpelledIsExact(doubles, a);
    SpelledIsExact(doubles, b);
    ParsedCharacters(Spelled(doubles, a));
    ParsedCharacters(Spelled(doubles, b));
    AsciiTextDecodes(Spelled(doubles, a), Spelled(doubles, b), x, y);
  }

  /** Two printed values that agree with what follows them are alike. */
  lemma {:induction false} PrintDecodes<D(!new)>(doubles: Doubles<D>, a: Json<D>, b: Json<D>, x: Text, y: Text)
    requires Faithful(doubles) && Admissible(a) && Admissible(b) && Delimited(x) && Delimited(y)
    requires Print(doubles, a) + x == Print(doubles, b) + y
    ensures Alike(doubles, a, b) && x == y
    decreases a, 2
  {
    FirstUnit(doubles, a);
    FirstUnit(doubles, b);
    FirstOf(Print(doubles, a), x);
    FirstOf(Print(doubles, b), y);
    match a
    case Str(s) => QuoteDecodes(s, b.s, x, y);
    case Arr(items) =>
      Associate([OPEN_BRACKET], PrintItems(doubles, items), x);
      Associate([OPEN_BRACKET], PrintItems(doubles, b.items), y);
      Cut([OPEN_BRACKET], PrintItems(doubles, items) + x, PrintItems(doubles, b.items) + y);
      ItemsDecode(doubles, items, b.items, x, y);
    case Obj(members) =>
      Associate([OPEN_BRACE], PrintMembers(doubles, members), x);
      Associate([OPEN_BRACE], PrintMembers(doubles, b.members), y);
      Cut([OPEN_BRACE], PrintMembers(doubles, members) + x, PrintMembers(doubles, b.members) + y);
      MembersDecode(doubles, members, b.members, x, y);
    case Null => Cut(NULL_TEXT, x, y);
    case Bool(t) => Cut(Print(doubles, a), x, y);
    case _ => NumbersDecode(doubles, a, b, x, y);
  }

  /** A list of items starts with its closing bracket exactly when it is empty. */
  lemma ItemsHead<D(!new)>(doubles: Doubles<D>, a: seq<Json<D>>, x: Text)
    requires Faithful(doubles) && forall i :: 0 <= i < |a| ==> Admissible(a[i])
    ensures PrintItems(doubles, a) + x != []
    ensures (PrintItems(doubles, a) + x)[0] == CLOSE_BRACKET <==> a == []
  {
    FirstOf(PrintItems(doubles, a), x);
    if a != [] {
      FirstUnit(doubles, a[0]);
      FirstOf(Print(doubles, a[0]), PrintMoreItems(doubles, a[1..]));
    }
  }

  lemma {:induction false} ItemsDecode<D(!new)>(doubles: Doubles<D>, a: seq<Json<D>>, b: seq<Json<D>>, x: Text, y: Text)
    requires Faithful(doubles) && Delimited(x) && Delimited(y)
    requires forall i :: 0 <= i < |a| ==> Admissible(a[i])
    requires forall i :: 0 <= i < |b| ==> Admissible(b[i])
    requires PrintItems(doubles, a) + x == PrintItems(doubles, b) + y
    ensures |a| == |b| && (forall i :: 0 <= i < |a| ==> Alike(doubles, a[i], b[i])) && x == y
    decreases a, 0
  {
    ItemsHead(doubles, a, x);
    ItemsHead(doubles, b, y);
    if a == [] {
      Cut([CLOSE_BRACKET], x, y);
    } else {
      var p, q := PrintMoreItems(doubles, a[1..]), PrintMoreItems(doubles, b[1..]);
      Associate(Print(doubles, a[0]), p, x);
      Associate(Print(doubles, b[0]), q, y);
      MoreItemsDelimited(doubles, a[1..], x);
      MoreItemsDelimited(doubles, b[1..], y);
      PrintDecodes(doubles, a[0], b[0], p + x, q + y);
      MoreItemsDecode(doubles, a[1..], b[1..], x, y);
      PointwiseItems(doubles, a, b);
    }
  }

  lemma PointwiseItems<D(!new)>(doubles: Doubles<D>, a: seq<Json<D>>, b: seq<Json<D>>)
    requires a != [] && |a| == |b| && Alike(doubles, a[0], b[0])
    requires forall i :: 0 <= i < |a[1..]| ==> Alike(doubles, a[1..][i], b[1..][i])
    ensures forall i :: 0 <= i < |a| ==> Alike(doubles, a[i], b[i])
  {
    PointwiseTail(a, b, (x, y) => Alike(doubles, x, y));
  }

  lemma MoreItemsDelimited<D>(doubles: Doubles<D>, a: seq<Json<D>>, x: Text)
    ensures Delimited(PrintMoreItems(doubles, a) + x) && PrintMoreItems(doubles, a) + x != []
    ensures (PrintMoreItems(doubles, a) + x)[0] == CLOSE_BRACKET <==> a == []
  {
    FirstOf(PrintMoreItems(doubles, a), x);
    if a != [] {
      FirstOf([COMMA], PrintItems(doubles, a));
    }
  }

  lemma {:induction false} MoreItemsDecode<D(!new)>(doubles: Doubles<D>, a: seq<Json<D>>, b: seq<Json<D>>, x: Text,
                                                    y: Text)
    requires Faithful(doubles) && Delimited(x) && Delimited(y)
    requires forall i :: 0 <= i < |a| ==> Admissible(a[i])
    requires forall i :: 0 <= i < |b| ==> Admissible(b[i])
    requires PrintMoreItems(doubles, a) + x == PrintMoreItems(doubles, b) + y
    ensures |a| == |b| && (forall i :: 0 <= i < |a| ==> Alike(doubles, a[i], b[i])) && x == y
    decreases a, 1
  {
    MoreItemsDelimited(doubles, a, x);
    MoreItemsDelimited(doubles, b, y);
    if a == [] {
      Cut([CLOSE_BRACKET], x, y);
    } else {
      Associate([COMMA], PrintItems(doubles, a), x);
      Associate([COMMA], PrintItems(doubles, b), y);
      Cut([COMMA], PrintItems(doubles, a) + x, PrintItems(doubles, b) + y);
      ItemsDecode(doubles, a, b, x, y);
    }
  }

  lemma MembersHead<D>(doubles: Doubles<D>, a: seq<Member<Json<D>>>, x: Text)
    ensures PrintMembers(doubles, a) + x != []
    ensures (PrintMembers(doubles, a) + x)[0] == CLOSE_BRACE <==> a == []
  {
    FirstOf(PrintMembers(doubles, a), x);
    if a != [] {
      FirstOf(Quote(a[0].key), [COLON] + (Print(doubles, a[0].value) + PrintMoreMembers(doubles, a[1..])));
    }
  }

  lemma MemberRegroup(key: Text, value: Text, more: Text, x: Text)
    ensures (key + ([COLON] + (value + more))) + x == key + ([COLON] + (value + (more + x)))
  {
    Associate(key, [COLON] + (value + more), x);
    Associate([COLON], value + more, x);
    Associate(value, more, x);
  }

  lemma {:induction false} MembersDecode<D(!new)>(doubles: Doubles<D>, a: seq<Member<Json<D>>>,
                                                  b: seq<Member<Json<D>>>, x: Text, y: Text)
    requires Faithful(doubles) && Delimited(x) && Delimited(y)
    requires forall i :: 0 <= i < |a| ==> Admissible(a[i].value)
    requires forall i :: 0 <= i < |b| ==> Admissible(b[i].value)
    requires PrintMembers(doubles, a) + x == PrintMembers(doubles, b) + y
    ensures |a| == |b| && x == y
    ensures forall i :: 0 <= i < |a| ==> a[i].key == b[i].key && Alike(doubles, a[i].value, b[i].value)
    decreases a, 0
  {
    MembersHead(doubles, a, x);
    MembersHead(doubles, b, y);
    if a == [] {
      Cut([CLOSE_BRACE], x, y);
    } else {
      var p, q := PrintMoreMembers(doubles, a[1..]) + x, PrintMoreMembers(doubles, b[1..]) + y;
      var v, w := Print(doubles, a[0].value), Print(doubles, b[0].value);
      MemberRegroup(Quote(a[0].key), v, PrintMoreMembers(doubles, a[1..]), x);
      MemberRegroup(Quote(b[0].key), w, PrintMoreMembers(doubles, b[1..]), y);
      QuoteDecodes(a[0].key, b[0].key, [COLON] + (v + p), [COLON] + (w + q));
      Cut([COLON], v + p, w + q);
      MoreMembersDelimited(doubles, a[1..], x);
      MoreMembersDelimited(doubles, b[1..], y);
      PrintDecodes(doubles, a[0].value, b[0].value, p, q);
      MoreMembersDecode(doubles, a[1..], b[1..], x, y);
      PointwiseMembers(doubles, a, b);
    }
  }

  lemma PointwiseMembers<D(!new)>(doubles: Doubles<D>, a: seq<Member<Json<D>>>, b: seq<Member<Json<D>>>)
    requires a != [] && |a| == |b| && a[0].key == b[0].key && Alike(doubles, a[0].value, b[0].value)
    requires forall i :: 0 <= i < |a[1..]| ==>
               a[1..][i].key == b[1..][i].key && Alike(doubles, a[1..][i].value, b[1..][i].value)
    ensures forall i :: 0 <= i < |a| ==> a[i].key == b[i].key && Alike(doubles, a[i].value, b[i].value)
  {
    PointwiseTail(a, b, (x: Member<Json<D>>, y: Member<Json<D>>) => x.key == y.key && Alike(doubles, x.value, y.value));
  }

  lemma MoreMembersDelimited<D>(doubles: Doubles<D>, a: seq<Member<Json<D>>>, x: Text)
    ensures Delimited(PrintMoreMembers(doubles, a) + x) && PrintMoreMembers(doubles, a) + x != []
    ensures (PrintMoreMembers(doubles, a) + x)[0] == CLOSE_BRACE <==> a == []
  {
    FirstOf(PrintMoreMembers(doubles, a), x);
    if a != [] {
      FirstOf([COMMA], PrintMembers(doubles, a));
    }
  }

  lemma {:induction false} MoreMembersDecode<D(!new)>(doubles: Doubles<D>, a: seq<Member<Json<D>>>,
                                                      b: seq<Member<Json<D>>>, x: Text, y: Text)
    requires Faithful(doubles) && Delimited(x) && Delimited(y)
    requires forall i :: 0 <= i < |a| ==> Admissible(a[i].value)
    requires forall i :: 0 <= i < |b| ==> Admissible(b[i].value)
    requires PrintMoreMembers(doubles, a) + x == PrintMoreMembers(doubles, b) + y
    ensures |a| == |b| && x == y
    ensures forall i :: 0 <= i < |a| ==> a[i].key == b[i].key && Alike(doubles, a[i].value, b[i].value)
    decreases a, 1
  {
    MoreMembersDelimited(doubles, a, x);
    MoreMembersDelimited(doubles, b, y);
    if a == [] {
      Cut([CLOSE_BRACE], x, y);
    } else {
      Associate([COMMA], PrintMembers(doubles, a), x);
      Associate([COMMA], PrintMembers(doubles, b), y);
      Cut([COMMA], PrintMembers(doubles, a) + x, PrintMembers(doubles, b) + y);
      MembersDecode(doubles, a, b, x, y);
    }
  }
}
