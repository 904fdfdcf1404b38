/**
 * Standardised recipes: a versioned table of recipes per pizza type with at
 * most one version in force per type, and the validators for ingredient
 * quantities ("150g", "0.5 kg") and for the tolerance field ("±2%", "0-3%").
 */
module Recetas {

  import opened Wrappers
  import opened Text

  const VALID_PIZZAS: seq<string> := ["pepperoni", "hawaiana"]
  const MAX_GRAMS: real := 5000.0
  const MAX_TOLERANCE: real := 10.0
  const SECONDS_PER_DAY := 86400

  // ---------------------------------------------------------------------
  // Ingredient quantities
  // ---------------------------------------------------------------------

  datatype Unit = Grams | Kilograms

  /** The case-insensitive unit at the start of `s`, with what follows it. */
  function ReadUnit(s: string): (r: Option<(Unit, string)>)
    ensures r.Some? && r.value.0 == Grams ==> |s| >= 1 && LowerChar(s[0]) == 'g' && r.value.1 == s[1..]
    ensures r.Some? && r.value.0 == Kilograms ==> |s| >= 2 && EqualsIgnoringCase(s[..2], "kg") && r.value.1 == s[2..]
    ensures r.None? <==> !(|s| >= 1 && LowerChar(s[0]) == 'g') && !(|s| >= 2 && EqualsIgnoringCase(s[..2], "kg"))
  {
    if |s| >= 1 && LowerChar(s[0]) == 'g' then Some((Grams, s[1..]))
    else if |s| >= 2 && LowerChar(s[0]) == 'k' && LowerChar(s[1]) == 'g' then Some((Kilograms, s[2..]))
    else None
  }

  /**
   * The pattern `^\s*(\d+(\.\d+)?)\s*(g|kg)\s*$`, ignoring case: the literal
   * and the unit of a well-formed quantity, `None` otherwise.
   */
  function ParseQuantity(v: string): (r: Option<(Decimal, Unit)>)
    ensures r.Some? ==> WellFormed(r.value.0)
  {
    var lead := SpaceRun(v);
    ReadDecimalSplits(v[lead..]);
    match ReadDecimal(v[lead..])
    case None => None
    case Some((d, rest)) =>
      var gap := SpaceRun(rest);
      match ReadUnit(rest[gap..])
      case None => None
      case Some((u, tail)) => if AllSpaces(tail) then Some((d, u)) else None
  }

  /** The amount in grams: the literal's exact value, times 1000 for kilograms. */
  function GramsOf(d: Decimal, u: Unit): (g: real)
    requires WellFormed(d)
    ensures g >= 0.0
    ensures u == Kilograms ==> g == 1000.0 * Value(d)
    ensures u == Grams ==> g == Value(d)
  {
    if u == Kilograms then Value(d) * 1000.0 else Value(d)
  }

  /** The leading whitespace of `pre + literal + rest` is `pre`. */
  lemma {:induction false} LeadingPiece(pre: string, d: Decimal, rest: string)
    requires WellFormed(d) && AllSpaces(pre)
    ensures SpaceRun(pre + Format(d) + rest) == |pre| && (pre + Format(d) + rest)[|pre|..] == Format(d) + rest
  {
    FormatChars(d);
    var tail := Format(d) + rest;
    assert pre + Format(d) + rest == pre + tail;
    assert tail[0] == Format(d)[0];
    SpaceRunOf(pre, tail);
  }

  /** What follows the literal, `mid + unit + post`, starts with neither a digit nor a dot, and its whitespace is `mid`. */
  lemma {:induction false} UnitPiece(mid: string, unit: string, post: string)
    requires AllSpaces(mid) && AllSpaces(post)
    requires unit in ["g", "G", "kg", "KG", "Kg", "kG"]
    ensures !IsDigit((mid + unit + post)[0]) && (mid + unit + post)[0] != '.'
    ensures SpaceRun(mid + unit + post) == |mid| && (mid + unit + post)[|mid|..] == unit + post
    ensures ReadUnit(unit + post) == Some((if |unit| == 1 then Grams else Kilograms, post))
  {
    var afterUnit := unit + post;
    assert mid + unit + post == mid + afterUnit;
    assert (mid + unit + post)[0] == if mid != [] then mid[0] else unit[0];
    SpaceRunOf(mid, afterUnit);
    UnitRead(unit, post);
  }

  /** The unit is read in any case, leaving what follows it. */
  lemma UnitRead(unit: string, post: string)
    requires unit in ["g", "G", "kg", "KG", "Kg", "kG"]
    ensures ReadUnit(unit + post) == Some((if |unit| == 1 then Grams else Kilograms, post))
  {
    assert (unit + post)[|unit|..] == post;
  }

  /** A quantity written out with optional whitespace around the number and the unit is read back exactly. */
  lemma {:induction false} QuantityRoundTrip(pre: string, d: Decimal, mid: string, unit: string, post: string)
    requires WellFormed(d) && AllSpaces(pre) && AllSpaces(mid) && AllSpaces(post)
    requires unit in ["g", "G", "kg", "KG", "Kg", "kG"]
    ensures ParseQuantity(pre + Format(d) + mid + unit + post)
         == Some((d, if |unit| == 1 then Grams else Kilograms))
  {
    var v := pre + Format(d) + mid + unit + post;
    var rest := mid + unit + post;
    var u := if |unit| == 1 then Grams else Kilograms;
    assert SpaceRun(v) == |pre| && v[|pre|..] == Format(d) + rest by {
      assert v == pre + Format(d) + rest;
      LeadingPiece(pre, d, rest);
    }
    assert ReadDecimal(Format(d) + rest) == Some((d, rest)) by {
      UnitPiece(mid, unit, post);
      ReadDecimalFormat(d, rest);
    }
    assert SpaceRun(rest) == |mid| && ReadUnit(rest[|mid|..]) == Some((u, post)) by {
      UnitPiece(mid, unit, post);
    }
    ParseQuantityOf(v, |pre|, d, rest, |mid|, u, post);
  }

  /** How `ParseQuantity` reads a string once each of its pieces is known. */
  lemma ParseQuantityOf(v: string, lead: nat, d: Decimal, rest: string, gap: nat, u: Unit, tail: string)
    requires SpaceRun(v) == lead && ReadDecimal(v[lead..]) == Some((d, rest))
    requires SpaceRun(rest) == gap && ReadUnit(rest[gap..]) == Some((u, tail)) && AllSpaces(tail)
    ensures ParseQuantity(v) == Some((d, u))
  {
  }

  /** `v` split into whitespace, the literal `d`, whitespace, a spelling of the unit `u` and whitespace. */
  ghost predicate QuantityPieces(v: string, d: Decimal, u: Unit, pre: string, mid: string, unit: string, post: string) {
    && v == pre + Format(d) + mid + unit + post
    && WellFormed(d) && AllSpaces(pre) && AllSpaces(mid) && AllSpaces(post)
    && unit in ["g", "G", "kg", "KG", "Kg", "kG"]
    && (u == Grams <==> |unit| == 1)
  }

  /**
   * `v` matches `^\s*(\d+(\.\d+)?)\s*(g|kg)\s*$` ignoring case, with the literal
   * `d` as its number and `u` as its unit.
   */
  ghost predicate QuantityText(v: string, d: Decimal, u: Unit) {
    exists pre, mid, unit, post :: QuantityPieces(v, d, u, pre, mid, unit, post)
  }

  /** Only `g` and `G` lower-case to `g`. */
  lemma LowerG(c: char)
    requires LowerChar(c) == 'g'
    ensures c == 'g' || c == 'G'
  {
  }

  /** Only `k` and `K` lower-case to `k`. */
  lemma LowerK(c: char)
    requires LowerChar(c) == 'k'
    ensures c == 'k' || c == 'K'
  {
  }

  /** The unit text that `ReadUnit` consumed is one of the six spellings of `g` and `kg`. */
  lemma UnitSpelling(s: string, u: Unit, tail: string) returns (unit: string)
    requires ReadUnit(s) == Some((u, tail))
    ensures s == unit + tail
    ensures unit in ["g", "G", "kg", "KG", "Kg", "kG"] && (u == Grams <==> |unit| == 1)
  {
    if u == Grams {
      LowerG(s[0]);
      unit := [s[0]];
      assert s == unit + s[1..];
    } else {
      LowerK(s[..2][0]);
      LowerG(s[..2][1]);
      unit := [s[0], s[1]];
      assert s == unit + s[2..];
    }
  }

  /** A quantity is accepted only as the number and unit of text that matches the pattern. */
  lemma {:induction false} ParseQuantityOnlyMatches(v: string, d: Decimal, u: Unit)
    requires ParseQuantity(v) == Some((d, u))
    ensures QuantityText(v, d, u)
  {
    var lead := SpaceRun(v);
    ReadDecimalSplits(v[lead..]);
    var rest := ReadDecimal(v[lead..]).value.1;
    var gap := SpaceRun(rest);
    var tail := ReadUnit(rest[gap..]).value.1;
    PiecesOfAccepted(v, lead, d, rest, gap, u, tail);
  }

  /** The pieces `ParseQuantity` reads, put back together, are the whole text. */
  lemma PiecesOfAccepted(v: string, lead: nat, d: Decimal, rest: string, gap: nat, u: Unit, tail: string)
    requires lead <= |v| && AllSpaces(v[..lead])
    requires WellFormed(d) && v[lead..] == Format(d) + rest
    requires gap <= |rest| && AllSpaces(rest[..gap])
    requires ReadUnit(rest[gap..]) == Some((u, tail)) && AllSpaces(tail)
    ensures QuantityText(v, d, u)
  {
    var unit := UnitSpelling(rest[gap..], u, tail);
    var pre, mid := v[..lead], rest[..gap];
    assert v == pre + (Format(d) + rest) by {
      assert v == v[..lead] + v[lead..];
    }
    assert rest == mid + (unit + tail) by {
      assert rest == rest[..gap] + rest[gap..];
    }
    assert v == pre + Format(d) + mid + unit + tail by {
      assert v == pre + (Format(d) + (mid + (unit + tail)));
      Associate(pre, Format(d), mid, unit, tail);
    }
    assert QuantityPieces(v, d, u, pre, mid, unit, tail);
  }

  /** Concatenation regrouped to the left. */
  lemma Associate(a: string, b: string, c: string, e: string, f: string)
    ensures a + (b + (c + (e + f))) == a + b + c + e + f
  {
  }

  /** Text matching the pattern is accepted, and exactly as its number and unit. */
  lemma MatchesAreParsed(v: string, d: Decimal, u: Unit)
    requires QuantityText(v, d, u)
    ensures ParseQuantity(v) == Some((d, u))
  {
    var pre, mid, unit, post :| QuantityPieces(v, d, u, pre, mid, unit, post);
    QuantityRoundTrip(pre, d, mid, unit, post);
  }

  /** Why an ingredient is refused, naming the ingredient where the source does. */
  datatype IngredientError =
    | UnnamedIngredient           // "Hay un ingrediente sin nombre."
    | EmptyQuantity(name: string) // "'k': cantidad vacía."
    | BadFormat(name: string)     // "'k': usa cantidades tipo '150g' o '0.5kg'."
    | NotPositive(name: string)   // "'k': la cantidad debe ser > 0."
    | TooLarge(name: string)      // "'k': la cantidad es demasiado alta (> 5000g)."

  /** The checks on one ingredient, in order. */
  function CheckIngredient(name: string, quantity: string): Option<IngredientError> {
    if Strip(name) == [] then Some(UnnamedIngredient)
    else if Strip(quantity) == [] then Some(EmptyQuantity(name))
    else match ParseQuantity(quantity)
      case None => Some(BadFormat(name))
      case Some((d, u)) =>
        var grams := GramsOf(d, u);
        if grams <= 0.0 then Some(NotPositive(name))
        else if grams > MAX_GRAMS then Some(TooLarge(name))
        else None
  }

  /**
   * An ingredient is accepted exactly when it has a name and a quantity that
   * reads as more than 0 and at most 5000 grams; a blank name and a blank
   * quantity get their own errors.
   */
  lemma IngredientVerdict(name: string, quantity: string)
    ensures CheckIngredient(name, quantity).None? <==>
      && !AllSpaces(name)
      && ParseQuantity(quantity).Some?
      && 0.0 < GramsOf(ParseQuantity(quantity).value.0, ParseQuantity(quantity).value.1) <= MAX_GRAMS
    ensures CheckIngredient(name, quantity) == Some(UnnamedIngredient) <==> AllSpaces(name)
    ensures CheckIngredient(name, quantity) == Some(EmptyQuantity(name)) <==> !AllSpaces(name) && AllSpaces(quantity)
  {
  }

  predicate Accepted(ing: (string, string)) {
    CheckIngredient(ing.0, ing.1).None?
  }

  /** Whether each ingredient, in insertion order, is accepted. */
  function Verdicts(ings: seq<(string, string)>): (ok: seq<bool>)
    ensures |ok| == |ings|
  {
    seq(|ings|, i requires 0 <= i < |ings| => Accepted(ings[i]))
  }

  /** The position of the first refusal at or after `from`, or the length when there is none. */
  function FirstRefused(ok: seq<bool>, from: nat): (k: nat)
    requires from <= |ok|
    ensures from <= k <= |ok|
    ensures forall j | from <= j < k :: ok[j]
    ensures k < |ok| ==> !ok[k]
    decreases |ok| - from
  {
    if from == |ok| || !ok[from] then from else FirstRefused(ok, from + 1)
  }

  /**
   * `validate_ingredients`: the error of the first refused ingredient, in
   * insertion order, or `None` when every one is acceptable.
   */
  function ValidateIngredients(ings: seq<(string, string)>): (r: Option<IngredientError>)
    ensures r.None? <==> forall i | 0 <= i < |ings| :: Accepted(ings[i])
    ensures r.Some? ==> exists i | 0 <= i < |ings| ::
      && CheckIngredient(ings[i].0, ings[i].1) == r
      && forall j | 0 <= j < i :: Accepted(ings[j])
  {
    var ok := Verdicts(ings);
    var k := FirstRefused(ok, 0);
    assert forall j | 0 <= j < |ings| :: ok[j] == Accepted(ings[j]);
    if k == |ings| then None else CheckIngredient(ings[k].0, ings[k].1)
  }

  /** The loop of `validate_ingredients`, with its early return. */
  method FirstIngredientError(ings: seq<(string, string)>) returns (r: Option<IngredientError>)
    ensures r == ValidateIngredients(ings)
  {
    ghost var ok := Verdicts(ings);
    for i := 0 to |ings|
      invariant FirstRefused(ok, i) == FirstRefused(ok, 0)
    {
      var e := CheckIngredient(ings[i].0, ings[i].1);
      assert ok[i] == e.None?;
      if e.Some? {
        return e;
      }
    }
    return None;
  }

  // ---------------------------------------------------------------------
  // Tolerance
  // ---------------------------------------------------------------------

  /** A Python float as far as the tolerance check can tell: finite, infinite or not a number. */
  datatype PyFloat = Finite(v: real) | Inf(negative: bool) | NaN

  /** `x < y` on floats: false whenever a NaN is involved. */
  predicate FloatLt(x: PyFloat, y: PyFloat) {
    if x.NaN? || y.NaN? then false
    else if x.Inf? then x.negative && !(y.Inf? && y.negative)
    else if y.Inf? then !y.negative
    else x.v < y.v
  }

  function WithoutSign(t: string): string {
    if t != [] && (t[0] == '+' || t[0] == '-') then t[1..] else t
  }

  /** The unsigned decimal forms `float` accepts: `5`, `5.`, `5.25`, `.25`. */
  function ParseUnsigned(t: string): (r: Option<real>)
    ensures r.Some? ==> r.value >= 0.0
  {
    if '.' in t then
      var i := FirstIndex(t, '.');
      var whole, frac := t[..i], t[i + 1..];
      if (whole != [] || frac != []) && AllDigits(whole) && AllDigits(frac) then
        Some(DigitsValue(whole) as real + FracValue(frac))
      else None
    else if t != [] && AllDigits(t) then Some(DigitsValue(t) as real)
    else None
  }

  /**
   * `float(s)` on a tolerance operand: surrounding whitespace, an optional
   * sign, then `nan`, `inf`, `infinity` (any case) or an unsigned decimal.
   */
  function ParseFloat(s: string): (r: Option<PyFloat>)
    ensures r.Some? && r.value.Finite? && |Strip(s)| >= 1 && Strip(s)[0] != '-' ==> r.value.v >= 0.0
  {
    var t := Strip(s);
    var negative := t != [] && t[0] == '-';
    var body := WithoutSign(t);
    if EqualsIgnoringCase(body, "nan") then Some(NaN)
    else if EqualsIgnoringCase(body, "inf") || EqualsIgnoringCase(body, "infinity") then Some(Inf(negative))
    else match ParseUnsigned(body)
      case None => None
      case Some(x) => Some(Finite(if negative then -x else x))
  }

  /** A literal starts with a digit, so it never spells `nan`, `inf` or `infinity`. */
  lemma {:induction false} LiteralIsNoWord(s: string)
    requires s != [] && IsDigit(s[0])
    ensures !EqualsIgnoringCase(s, "nan") && !EqualsIgnoringCase(s, "inf") && !EqualsIgnoringCase(s, "infinity")
  {
    assert LowerChar(s[0]) == s[0];
  }

  /** The unsigned reading of a written-out literal is its exact value. */
  lemma {:induction false} ParseUnsignedFormat(d: Decimal)
    requires WellFormed(d)
    ensures ParseUnsigned(Format(d)) == Some(Value(d))
  {
    var s := Format(d);
    if d.frac == [] {
      assert s == d.whole;
      assert '.' !in s by {
        forall i | 0 <= i < |s| ensures s[i] != '.' {
          assert IsDigit(d.whole[i]);
        }
      }
    } else {
      var w := |d.whole|;
      assert s[w] == '.';
      var k := FirstIndex(s, '.');
      assert k == w;
      assert s[..w] == d.whole;
      assert s[w + 1..] == d.frac;
    }
  }

  /** A written-out literal is read as its exact value. */
  lemma {:induction false} ParseFloatFormat(d: Decimal)
    requires WellFormed(d)
    ensures ParseFloat(Format(d)) == Some(Finite(Value(d)))
  {
    var s := Format(d);
    FormatChars(d);
    StripUnchanged(s);
    assert WithoutSign(s) == s;
    LiteralIsNoWord(s);
    ParseUnsignedFormat(d);
  }

  /** `t` spells `nan`, `inf` or `infinity` in any mix of cases. */
  predicate IsFloatWord(t: string) {
    EqualsIgnoringCase(t, "nan") || EqualsIgnoringCase(t, "inf") || EqualsIgnoringCase(t, "infinity")
  }

  /** `t` is digits with one dot at `i`, at least one digit in all, worth `x`. */
  ghost predicate PointNumeral(t: string, i: int, x: real) {
    && 0 <= i < |t| && t[i] == '.' && |t| >= 2
    && AllDigits(t[..i]) && AllDigits(t[i + 1..])
    && x == DigitsValue(t[..i]) as real + FracValue(t[i + 1..])
  }

  /** `t` is an unsigned decimal numeral worth `x`: digits, with at most one dot and at least one digit. */
  ghost predicate Numeral(t: string, x: real) {
    || (t != [] && AllDigits(t) && x == DigitsValue(t) as real)
    || exists i :: PointNumeral(t, i, x)
  }

  /** A numeral starts with a digit or a dot. */
  lemma NumeralStart(t: string, x: real)
    requires Numeral(t, x)
    ensures t != [] && (IsDigit(t[0]) || t[0] == '.')
  {
    if !(t != [] && AllDigits(t)) {
      var i :| PointNumeral(t, i, x);
      if i > 0 {
        assert t[..i][0] == t[0];
      }
    }
  }

  /** A numeral spells no float word. */
  lemma NumeralIsNoWord(t: string, x: real)
    requires Numeral(t, x)
    ensures !IsFloatWord(t)
  {
    NumeralStart(t, x);
    assert LowerChar(t[0]) == t[0];
  }

  /** The dot of a numeral with a dot is the first dot of the text. */
  lemma PointIsFirstDot(t: string, j: int, x: real)
    requires PointNumeral(t, j, x)
    ensures '.' in t && FirstIndex(t, '.') == j
  {
    assert t[j] in t;
  }

  /** With a dot in `t`, the unsigned reading is the numeral split at the first dot. */
  lemma ParseUnsignedAtDot(t: string, x: real)
    requires '.' in t
    ensures ParseUnsigned(t) == Some(x) <==> PointNumeral(t, FirstIndex(t, '.'), x)
  {
    var i := FirstIndex(t, '.');
    assert |t| == |t[..i]| + 1 + |t[i + 1..]|;
  }

  /** The unsigned forms `float` accepts are exactly the numerals, each read as its value. */
  lemma ParseUnsignedIff(t: string, x: real)
    ensures ParseUnsigned(t) == Some(x) <==> Numeral(t, x)
  {
    if '.' in t {
      var i := FirstIndex(t, '.');
      ParseUnsignedAtDot(t, x);
      assert !AllDigits(t) by {
        assert !IsDigit(t[i]);
      }
      if Numeral(t, x) {
        var j :| PointNumeral(t, j, x);
        PointIsFirstDot(t, j, x);
      }
    } else {
      assert forall j :: !PointNumeral(t, j, x) by {
        forall j | PointNumeral(t, j, x) ensures false {
          PointIsFirstDot(t, j, x);
        }
      }
    }
  }

  /** `t` is refused by the unsigned reading exactly when it is no numeral. */
  lemma ParseUnsignedNone(t: string)
    ensures ParseUnsigned(t).None? <==> forall x :: !Numeral(t, x)
  {
    if ParseUnsigned(t).Some? {
      ParseUnsignedIff(t, ParseUnsigned(t).value);
    } else {
      forall x ensures !Numeral(t, x) {
        ParseUnsignedIff(t, x);
      }
    }
  }

  /**
   * What `float` makes of text, once stripped and with one leading sign set
   * aside: `nan` and the infinities by their words, a number exactly from a
   * numeral, and a `ValueError` for anything else.
   */
  lemma ParseFloatReads(s: string, x: real)
    ensures var t := Strip(s);
      var body := WithoutSign(t);
      var negative := t != [] && t[0] == '-';
      && (ParseFloat(s) == Some(NaN) <==> EqualsIgnoringCase(body, "nan"))
      && (ParseFloat(s) == Some(Inf(negative)) <==> IsFloatWord(body) && !EqualsIgnoringCase(body, "nan"))
      && (ParseFloat(s) == Some(Finite(if negative then -x else x)) <==> Numeral(body, x))
      && (ParseFloat(s).None? <==> !IsFloatWord(body) && forall y :: !Numeral(body, y))
  {
    var t := Strip(s);
    var body := WithoutSign(t);
    ParseUnsignedIff(body, x);
    ParseUnsignedNone(body);
    if IsFloatWord(body) {
      if Numeral(body, x) {
        NumeralIsNoWord(body, x);
      }
    } else {
      match ParseUnsigned(body)
      case None =>
      case Some(y) =>
        ParseUnsignedIff(body, y);
        assert (if t != [] && t[0] == '-' then -y else y) == (if t != [] && t[0] == '-' then -x else x) <==> y == x;
    }
  }

  datatype ToleranceError =
    | EmptyTolerance // "La tolerancia no puede estar vacía."
    | NotANumber     // "Tolerancia inválida (usa números)."
    | OutOfRange     // "Tolerancia fuera de rango (0–10%)."

  /** The tolerance text with spaces removed and a leading `±` and a trailing `%` dropped. */
  function ToleranceBody(s: string): string {
    DropPercent(DropSign(RemoveSpaces(Strip(s))))
  }

  function DropSign(t: string): string {
    if t != [] && t[0] == '±' then t[1..] else t
  }

  function DropPercent(t: string): string {
    if t != [] && t[|t| - 1] == '%' then t[..|t| - 1] else t
  }

  /** The operands of a tolerance body: `a-b` split at the first dash, or a single number. */
  datatype Reading = Pair(low: PyFloat, high: PyFloat) | Single(x: PyFloat) | Unreadable

  function ReadTolerance(body: string): Reading {
    if '-' in body then
      var i := FirstIndex(body, '-');
      match (ParseFloat(body[..i]), ParseFloat(body[i + 1..]))
      case (Some(a), Some(b)) => Pair(a, b)
      case _ => Unreadable
    else
      match ParseFloat(body)
      case Some(x) => Single(x)
      case None => Unreadable
  }

  /**
   * `validate_tolerance` as written. The comparisons are made on Python
   * floats, so an operand `nan` passes every range test.
   */
  function ValidateToleranceAsWritten(s: string): Option<ToleranceError> {
    if RemoveSpaces(Strip(s)) == [] then Some(EmptyTolerance)
    else match ReadTolerance(ToleranceBody(s))
      case Unreadable => Some(NotANumber)
      case Pair(a, b) =>
        if FloatLt(a, Finite(0.0)) || FloatLt(b, Finite(0.0)) || FloatLt(b, a) || FloatLt(Finite(MAX_TOLERANCE), b)
        then Some(OutOfRange) else None
      case Single(x) =>
        if FloatLt(x, Finite(0.0)) || FloatLt(Finite(MAX_TOLERANCE), x) then Some(OutOfRange) else None
  }

  lemma ParseNaN()
    ensures ParseFloat("nan") == Some(NaN)
  {
    StripUnchanged("nan");
    assert EqualsIgnoringCase("nan", "nan");
  }

  /** The characters of the tolerance `nan%`: no spaces, and no dash once `%` is dropped. */
  lemma NaNText()
    ensures ' ' !in "nan%"
    ensures DropPercent(DropSign("nan%")) == "nan" && '-' !in "nan"
  {
    assert forall i | 0 <= i < 4 :: "nan%"[i] != ' ';
    assert "nan%"[..3] == "nan";
    assert forall i | 0 <= i < 3 :: "nan"[i] != '-';
  }

  lemma NaNReading()
    ensures RemoveSpaces(Strip("nan%")) == "nan%"
    ensures ReadTolerance(ToleranceBody("nan%")) == Single(NaN)
  {
    NaNText();
    CompactBody("nan%");
    ParseNaN();
  }

  /** `nan%` is accepted as written, although it is not a percentage in 0–10. */
  lemma NaNToleranceAccepted()
    ensures ValidateToleranceAsWritten("nan%") == None
  {
    NaNReading();
  }

  /** Whether a parsed operand is a real number in the allowed range. */
  predicate InRange(x: PyFloat) {
    x.Finite? && 0.0 <= x.v <= MAX_TOLERANCE
  }

  /** Real operands in the range 0–10, the lower not above the upper. */
  predicate Acceptable(rd: Reading) {
    match rd
    case Pair(a, b) => InRange(a) && InRange(b) && a.v <= b.v
    case Single(x) => InRange(x)
    case Unreadable => false
  }

  /**
   * `validate_tolerance` with the range test stated positively, so that only
   * real numbers are accepted: `a-b` with `0 <= a <= b <= 10`, or one `x`
   * with `0 <= x <= 10`.
   */
  function ValidateTolerance(s: string): (r: Option<ToleranceError>)
    ensures r.None? <==> RemoveSpaces(Strip(s)) != [] && Acceptable(ReadTolerance(ToleranceBody(s)))
    ensures r == Some(EmptyTolerance) <==> RemoveSpaces(Strip(s)) == []
    ensures r == Some(NotANumber) <==> RemoveSpaces(Strip(s)) != [] && ReadTolerance(ToleranceBody(s)).Unreadable?
  {
    if RemoveSpaces(Strip(s)) == [] then Some(EmptyTolerance)
    else match ReadTolerance(ToleranceBody(s))
      case Unreadable => Some(NotANumber)
      case Pair(a, b) => if InRange(a) && InRange(b) && a.v <= b.v then None else Some(OutOfRange)
      case Single(x) => if InRange(x) then None else Some(OutOfRange)
  }

  /** `float` accepts `s`: once stripped and without its sign, a float word or a numeral. */
  ghost predicate FloatText(s: string) {
    IsFloatWord(WithoutSign(Strip(s))) || exists x :: Numeral(WithoutSign(Strip(s)), x)
  }

  /** `float` raises `ValueError` exactly on text that is no float word and no numeral. */
  lemma ParseFloatRefuses(s: string)
    ensures ParseFloat(s).None? <==> !FloatText(s)
  {
    ParseFloatReads(s, 0.0);
  }

  /** A tolerance body has an operand that is not float text: either side of the first dash, or the whole body. */
  ghost predicate HasNonNumber(body: string) {
    if '-' in body then
      var i := FirstIndex(body, '-');
      !FloatText(body[..i]) || !FloatText(body[i + 1..])
    else !FloatText(body)
  }

  /** A body is unreadable exactly when an operand is not float text. */
  lemma UnreadableBody(body: string)
    ensures ReadTolerance(body).Unreadable? <==> HasNonNumber(body)
  {
    if '-' in body {
      var i := FirstIndex(body, '-');
      ParseFloatRefuses(body[..i]);
      ParseFloatRefuses(body[i + 1..]);
    } else {
      ParseFloatRefuses(body);
    }
  }

  /** A non-empty tolerance is refused as not a number exactly when an operand of its body is not float text. */
  lemma ToleranceNotANumber(s: string)
    ensures ValidateTolerance(s) == Some(NotANumber) <==> RemoveSpaces(Strip(s)) != [] && HasNonNumber(ToleranceBody(s))
  {
    UnreadableBody(ToleranceBody(s));
  }

  /** On inputs whose operands are not NaN, the corrected check and the one as written agree. */
  lemma {:induction false} ToleranceAgreesWithoutNaN(s: string)
    requires !(ReadTolerance(ToleranceBody(s)).Pair? && (ReadTolerance(ToleranceBody(s)).low.NaN? || ReadTolerance(ToleranceBody(s)).high.NaN?))
    requires !(ReadTolerance(ToleranceBody(s)).Single? && ReadTolerance(ToleranceBody(s)).x.NaN?)
    ensures ValidateTolerance(s) == ValidateToleranceAsWritten(s)
  {
    if RemoveSpaces(Strip(s)) != [] {
      var rd := ReadTolerance(ToleranceBody(s));
      match rd
      case Unreadable =>
      case Single(x) =>
        assert FloatLt(x, Finite(0.0)) || FloatLt(Finite(MAX_TOLERANCE), x) <==> !InRange(x);
      case Pair(a, b) =>
        assert FloatLt(a, Finite(0.0)) || FloatLt(b, Finite(0.0)) || FloatLt(b, a) || FloatLt(Finite(MAX_TOLERANCE), b)
           <==> !(InRange(a) && InRange(b) && a.v <= b.v);
    }
  }

  /** The corrected check refuses `nan%`, which the check as written lets through. */
  lemma NaNToleranceRefused()
    ensures ValidateTolerance("nan%") == Some(OutOfRange)
  {
    NaNReading();
  }

  /** `s` is non-empty, holds no space and neither starts nor ends with whitespace. */
  predicate Compact(s: string) {
    s != [] && !IsSpace(s[0]) && !IsSpace(s[|s| - 1]) && ' ' !in s
  }

  /** A tolerance without surrounding whitespace or spaces keeps its text, so its body is what dropping `±` and `%` leaves. */
  lemma {:induction false} CompactBody(s: string)
    requires Compact(s)
    ensures RemoveSpaces(Strip(s)) == s
    ensures ToleranceBody(s) == DropPercent(DropSign(s))
  {
    StripUnchanged(s);
    RemoveSpacesNoSpace(s);
  }

  /** A literal contains neither spaces nor dashes. */
  lemma {:induction false} LiteralIsCompact(d: Decimal)
    requires WellFormed(d)
    ensures ' ' !in Format(d) && '-' !in Format(d) && '±' !in Format(d)
    ensures !IsSpace(Format(d)[0]) && !IsSpace(Format(d)[|Format(d)| - 1])
  {
    FormatChars(d);
    var f := Format(d);
    forall k | 0 <= k < |f| ensures f[k] != ' ' && f[k] != '-' && f[k] != '±' { }
  }

  lemma {:induction false} ReadSingleLiteral(x: Decimal)
    requires WellFormed(x)
    ensures ReadTolerance(Format(x)) == Single(Finite(Value(x)))
  {
    LiteralIsCompact(x);
    ParseFloatFormat(x);
  }

  /** `a-b` with literals `a` and `b` splits at the dash between them. */
  lemma {:induction false} PairShape(a: Decimal, b: Decimal)
    requires WellFormed(a) && WellFormed(b)
    ensures var body := Format(a) + "-" + Format(b);
      && '-' in body && FirstIndex(body, '-') == |Format(a)|
      && body[..|Format(a)|] == Format(a) && body[|Format(a)| + 1..] == Format(b)
  {
    var fa, fb := Format(a), Format(b);
    var body := fa + "-" + fb;
    LiteralIsCompact(a);
    assert body[|fa|] == '-';
    assert body[..|fa|] == fa;
    assert body[|fa| + 1..] == fb;
  }

  lemma {:induction false} ReadPairOfLiterals(a: Decimal, b: Decimal)
    requires WellFormed(a) && WellFormed(b)
    ensures ReadTolerance(Format(a) + "-" + Format(b)) == Pair(Finite(Value(a)), Finite(Value(b)))
  {
    PairShape(a, b);
    ParseFloatFormat(a);
    ParseFloatFormat(b);
  }

  /** `a-b` with literals `a` and `b` holds no space and starts and ends with a digit. */
  lemma {:induction false} PairIsCompact(a: Decimal, b: Decimal)
    requires WellFormed(a) && WellFormed(b)
    ensures var body := Format(a) + "-" + Format(b);
      Compact(body) && IsDigit(body[0]) && IsDigit(body[|body| - 1])
  {
    var fa, fb := Format(a), Format(b);
    var body := fa + "-" + fb;
    forall k | 0 <= k < |body| ensures body[k] != ' ' {
      if k < |fa| {
        assert body[k] == fa[k];
        LiteralIsCompact(a);
      } else if k > |fa| {
        assert body[k] == fb[k - |fa| - 1];
        LiteralIsCompact(b);
      }
    }
    assert IsDigit(body[0]) by {
      FormatChars(a);
      assert body[0] == fa[0];
    }
    assert IsDigit(body[|body| - 1]) by {
      FormatChars(b);
      assert body[|body| - 1] == fb[|fb| - 1];
    }
  }

  /** Tolerance text around `core`: an optional `±` in front and an optional `%` behind. */
  function Decorated(signed: bool, core: string, percent: bool): (s: string)
    ensures |s| == |core| + (if signed then 1 else 0) + (if percent then 1 else 0)
  {
    (if signed then "±" else "") + core + (if percent then "%" else "")
  }

  /** Dropping the `±` and the `%` again leaves `core`, and the decorated text is compact when `core` is. */
  lemma {:induction false} DecoratedShape(signed: bool, core: string, percent: bool)
    requires Compact(core) && core[0] != '±' && core[|core| - 1] != '%'
    ensures Compact(Decorated(signed, core, percent))
    ensures DropPercent(DropSign(Decorated(signed, core, percent))) == core
  {
    var front: string := if signed then "±" else "";
    var back: string := if percent then "%" else "";
    var s := Decorated(signed, core, percent);
    assert s == front + core + back;
    forall k | 0 <= k < |s| ensures s[k] != ' ' {
      if |front| <= k < |front| + |core| {
        assert s[k] == core[k - |front|];
      }
    }
    assert s[0] == if signed then '±' else core[0];
    assert s[|s| - 1] == if percent then '%' else core[|core| - 1];
    assert DropSign(s) == core + back by {
      if signed {
        assert s[1..] == core + back;
      } else {
        assert s == core + back;
      }
    }
    assert DropPercent(core + back) == core by {
      if percent {
        assert (core + back)[..|core|] == core;
      } else {
        assert core + back == core;
      }
    }
  }

  /** Whitespace around a compact tolerance is stripped, so only the body of the compact text counts. */
  lemma {:induction false} BodyInSpaces(pre: string, s: string, post: string)
    requires AllSpaces(pre) && AllSpaces(post) && Compact(s)
    ensures RemoveSpaces(Strip(pre + s + post)) == s
    ensures ToleranceBody(pre + s + post) == DropPercent(DropSign(s))
  {
    StripAround(pre, s, post);
    RemoveSpacesNoSpace(s);
  }

  /**
   * `a-b` with literals `a` and `b`, with or without `±` and `%` and with
   * whitespace around it, is accepted exactly when `a <= b <= 10`.
   */
  lemma {:induction false} RangeToleranceAccepted(pre: string, signed: bool, a: Decimal, b: Decimal, percent: bool, post: string)
    requires WellFormed(a) && WellFormed(b) && AllSpaces(pre) && AllSpaces(post)
    ensures ValidateTolerance(pre + Decorated(signed, Format(a) + "-" + Format(b), percent) + post) == None
        <==> Value(a) <= Value(b) <= MAX_TOLERANCE
  {
    var core := Format(a) + "-" + Format(b);
    var s := Decorated(signed, core, percent);
    PairIsCompact(a, b);
    DecoratedShape(signed, core, percent);
    BodyInSpaces(pre, s, post);
    ReadPairOfLiterals(a, b);
    PairAcceptable(Value(a), Value(b));
  }

  /** Two non-negative operands are in range exactly when the low one is at most the high one, which is at most 10. */
  lemma PairAcceptable(x: real, y: real)
    requires x >= 0.0
    ensures Acceptable(Pair(Finite(x), Finite(y))) <==> x <= y <= MAX_TOLERANCE
  {
  }

  /**
   * One literal `x`, with or without `±` and `%` and with whitespace around
   * it, is accepted exactly when `x <= 10`.
   */
  lemma {:induction false} SingleToleranceAccepted(pre: string, signed: bool, x: Decimal, percent: bool, post: string)
    requires WellFormed(x) && AllSpaces(pre) && AllSpaces(post)
    ensures ValidateTolerance(pre + Decorated(signed, Format(x), percent) + post) == None <==> Value(x) <= MAX_TOLERANCE
  {
    var fx := Format(x);
    var s := Decorated(signed, fx, percent);
    assert Compact(fx) && fx[0] != '±' && fx[|fx| - 1] != '%' by {
      LiteralIsCompact(x);
      FormatChars(x);
    }
    assert Compact(s) && DropPercent(DropSign(s)) == fx by {
      DecoratedShape(signed, fx, percent);
    }
    assert RemoveSpaces(Strip(pre + s + post)) == s && ToleranceBody(pre + s + post) == fx by {
      BodyInSpaces(pre, s, post);
    }
    ReadSingleLiteral(x);
    SingleAcceptable(Value(x));
  }

  /** A non-negative single operand is in range exactly when it is at most 10. */
  lemma SingleAcceptable(x: real)
    requires x >= 0.0
    ensures Acceptable(Single(Finite(x))) <==> x <= MAX_TOLERANCE
  {
  }

  // ---------------------------------------------------------------------
  // The recipe-version table
  // ---------------------------------------------------------------------

  /** A row of `recipe_versions`; `createdAt` in seconds. */
  datatype RecipeVersion = RecipeVersion(
    id: int,
    pizzaType: string,
    version: int,
    active: bool,
    ingredients: seq<(string, string)>,
    tolerance: seq<(string, string)>,
    note: string,
    createdAt: int)

  /** The row after `UPDATE ... SET active=0 WHERE pizza_type=t`. */
  function Retire(row: RecipeVersion, t: string): RecipeVersion {
    if row.pizzaType == t then row.(active := false) else row
  }

  /** Every row of type `t` retired, the others as they were. */
  function RetireAll(rows: seq<RecipeVersion>, t: string): (r: seq<RecipeVersion>)
    ensures |r| == |rows|
  {
    if rows == [] then [] else RetireAll(rows[..|rows| - 1], t) + [Retire(rows[|rows| - 1], t)]
  }

  /** Retiring a type works row by row: each row of the type becomes inactive, every other row stays. */
  lemma {:induction false} RetireAllRows(rows: seq<RecipeVersion>, t: string)
    ensures forall i | 0 <= i < |rows| :: RetireAll(rows, t)[i] == Retire(rows[i], t)
  {
    if rows != [] {
      RetireAllRows(rows[..|rows| - 1], t);
    }
  }

  /** `MAX(version)` over the rows of type `t`: SQL's NULL when the type has no row. */
  function LatestVersion(rows: seq<RecipeVersion>, t: string): (m: Option<int>)
    ensures m.None? <==> forall i | 0 <= i < |rows| :: rows[i].pizzaType != t
    ensures m.Some? ==> forall i | 0 <= i < |rows| && rows[i].pizzaType == t :: rows[i].version <= m.value
    ensures m.Some? ==> exists i | 0 <= i < |rows| :: rows[i].pizzaType == t && rows[i].version == m.value
  {
    if rows == [] then None
    else
      var m := LatestVersion(rows[..|rows| - 1], t);
      var last := rows[|rows| - 1];
      if last.pizzaType == t && (m.None? || last.version > m.value) then Some(last.version) else m
  }

  /**
   * `COALESCE(MAX(version), 0)` over the rows of type `t`: the highest
   * version of the type, or 0 when it has no row.
   */
  function MaxVersion(rows: seq<RecipeVersion>, t: string): (m: int)
    ensures (forall i | 0 <= i < |rows| :: rows[i].pizzaType != t) ==> m == 0
    ensures (exists i | 0 <= i < |rows| :: rows[i].pizzaType == t) ==>
      exists i | 0 <= i < |rows| :: rows[i].pizzaType == t && rows[i].version == m
    ensures forall i | 0 <= i < |rows| && rows[i].pizzaType == t :: rows[i].version <= m
  {
    match LatestVersion(rows, t)
    case None => 0
    case Some(v) => v
  }

  /** Versions are numbered from 1, so the highest one of a type is never negative. */
  lemma MaxVersionNotNegative(rows: seq<RecipeVersion>, t: string)
    requires VersionsPositive(rows)
    ensures MaxVersion(rows, t) >= 0
  {
  }

  predicate OneActivePerType(rows: seq<RecipeVersion>) {
    forall i, j | 0 <= i < |rows| && 0 <= j < |rows| ::
      rows[i].active && rows[j].active && rows[i].pizzaType == rows[j].pizzaType ==> i == j
  }

  /** Ids increase in insertion order and stay below the next id to hand out. */
  predicate IdsIncrease(rows: seq<RecipeVersion>, nextId: int) {
    && (forall i | 0 <= i < |rows| :: 1 <= rows[i].id < nextId)
    && (forall i, j | 0 <= i < j < |rows| :: rows[i].id < rows[j].id)
  }

  /** Every version number is at least 1, as every row is created at max + 1. */
  predicate VersionsPositive(rows: seq<RecipeVersion>) {
    forall i | 0 <= i < |rows| :: rows[i].version >= 1
  }

  /** Within a type, later rows carry higher versions. */
  predicate VersionsIncrease(rows: seq<RecipeVersion>) {
    forall i, j | 0 <= i < j < |rows| && rows[i].pizzaType == rows[j].pizzaType :: rows[i].version < rows[j].version
  }

  /** The row `create_new_version` inserts: version max + 1 of its type. */
  function NewRow(rows: seq<RecipeVersion>, t: string, id: int, activate: bool, ingredients: seq<(string, string)>,
                  tolerance: seq<(string, string)>, note: string, now: int): RecipeVersion {
    RecipeVersion(id, t, MaxVersion(rows, t) + 1, activate, ingredients, tolerance, note, now)
  }

  /**
   * The table after `create_new_version`: the new row at the end; with
   * `activate` the earlier rows of its type retired; every other row as it was.
   */
  function WithNewVersion(rows: seq<RecipeVersion>, row: RecipeVersion, activate: bool): seq<RecipeVersion> {
    (if activate then RetireAll(rows, row.pizzaType) else rows) + [row]
  }

  /** What `create_new_version` does to the table, row by row. */
  lemma WithNewVersionRows(rows: seq<RecipeVersion>, row: RecipeVersion, activate: bool)
    ensures var r := WithNewVersion(rows, row, activate);
      && |r| == |rows| + 1 && r[|rows|] == row
      && (forall i | 0 <= i < |rows| && rows[i].pizzaType != row.pizzaType :: r[i] == rows[i])
      && (forall i | 0 <= i < |rows| && rows[i].pizzaType == row.pizzaType ::
            r[i] == if activate then rows[i].(active := false) else rows[i])
      && (!activate ==> r[..|rows|] == rows)
  {
    RetireAllRows(rows, row.pizzaType);
  }

  /**
   * The consistency the table keeps: increasing ids, versions from 1 and
   * increasing per type, one active row per type.
   */
  predicate ValidTable(rows: seq<RecipeVersion>, nextId: int) {
    && nextId >= 1
    && IdsIncrease(rows, nextId)
    && VersionsPositive(rows)
    && VersionsIncrease(rows)
    && OneActivePerType(rows)
  }

  /**
   * A new version keeps "at most one active per type": activating retires
   * the others of its type, and an inactive row adds no active one.
   */
  lemma NewVersionKeepsOneActive(rows: seq<RecipeVersion>, row: RecipeVersion, activate: bool)
    requires OneActivePerType(rows) && row.active == activate
    ensures OneActivePerType(WithNewVersion(rows, row, activate))
  {
    WithNewVersionRows(rows, row, activate);
  }

  /** Version numbers keep increasing within a type when the new row takes max + 1. */
  lemma NewVersionKeepsOrder(rows: seq<RecipeVersion>, row: RecipeVersion, activate: bool)
    requires VersionsIncrease(rows) && row.version == MaxVersion(rows, row.pizzaType) + 1
    ensures VersionsIncrease(WithNewVersion(rows, row, activate))
  {
    WithNewVersionRows(rows, row, activate);
    var r := WithNewVersion(rows, row, activate);
    forall i, j | 0 <= i < j < |r| && r[i].pizzaType == r[j].pizzaType
      ensures r[i].version < r[j].version
    {
      if j < |rows| {
        assert r[i].version == rows[i].version && r[j].version == rows[j].version;
      } else {
        assert r[i].version == rows[i].version;
      }
    }
  }

  /** The rows of type `t` created on days within the bounds, latest inserted first. */
  function VersionsOf(rows: seq<RecipeVersion>, t: string, dayFrom: Option<int>, dayTo: Option<int>): seq<RecipeVersion> {
    if rows == [] then []
    else
      var last := rows[|rows| - 1];
      var rest := VersionsOf(rows[..|rows| - 1], t, dayFrom, dayTo);
      if last.pizzaType == t && InDays(last, dayFrom, dayTo) then [last] + rest else rest
  }

  /** The filter keeps exactly the rows of type `t` within the day bounds. */
  lemma {:induction false} VersionsOfSelects(rows: seq<RecipeVersion>, t: string, dayFrom: Option<int>, dayTo: Option<int>)
    ensures forall x | x in VersionsOf(rows, t, dayFrom, dayTo) :: x in rows && x.pizzaType == t && InDays(x, dayFrom, dayTo)
    ensures forall x | x in rows && x.pizzaType == t && InDays(x, dayFrom, dayTo) :: x in VersionsOf(rows, t, dayFrom, dayTo)
  {
    if rows != [] {
      var init, last := rows[..|rows| - 1], rows[|rows| - 1];
      VersionsOfSelects(init, t, dayFrom, dayTo);
      assert rows == init + [last];
    }
  }

  predicate DescendingVersions(r: seq<RecipeVersion>) {
    forall i, j | 0 <= i < j < |r| :: r[i].version > r[j].version
  }

  /** When versions increase within each type, the filtered rows come by version descending. */
  lemma {:induction false} VersionsOfDescending(rows: seq<RecipeVersion>, t: string, dayFrom: Option<int>, dayTo: Option<int>)
    requires VersionsIncrease(rows)
    ensures DescendingVersions(VersionsOf(rows, t, dayFrom, dayTo))
  {
    if rows != [] {
      var init, last := rows[..|rows| - 1], rows[|rows| - 1];
      var rest := VersionsOf(init, t, dayFrom, dayTo);
      assert VersionsIncrease(init);
      VersionsOfDescending(init, t, dayFrom, dayTo);
      if !(last.pizzaType == t && InDays(last, dayFrom, dayTo)) {
        assert VersionsOf(rows, t, dayFrom, dayTo) == rest;
      } else {
        assert forall x | x in rest :: x.version < last.version by {
          VersionsOfSelects(init, t, dayFrom, dayTo);
          forall x | x in rest ensures x.version < last.version {
            var k :| 0 <= k < |init| && init[k] == x;
            assert rows[k] == x;
          }
        }
        var r := [last] + rest;
        assert VersionsOf(rows, t, dayFrom, dayTo) == r;
        assert forall j | 1 <= j < |r| :: r[j] == rest[j - 1] && r[j] in rest;
      }
    }
  }

  /** `date(created_at)` between the optional bounds, both inclusive. */
  predicate InDays(x: RecipeVersion, dayFrom: Option<int>, dayTo: Option<int>) {
    var day := x.createdAt / SECONDS_PER_DAY;
    (dayFrom.Some? ==> dayFrom.value <= day) && (dayTo.Some? ==> day <= dayTo.value)
  }

  /** The active row of type `t`, if any. */
  function ActiveOf(rows: seq<RecipeVersion>, t: string): (r: Option<RecipeVersion>)
    ensures r.Some? ==> r.value in rows && r.value.pizzaType == t && r.value.active
    ensures r.None? <==> forall i | 0 <= i < |rows| :: !(rows[i].pizzaType == t && rows[i].active)
  {
    if rows == [] then None
    else if rows[0].pizzaType == t && rows[0].active then Some(rows[0])
    else
      var r := ActiveOf(rows[1..], t);
      assert forall i | 1 <= i < |rows| :: rows[i] == rows[1..][i - 1];
      r
  }

  /** With at most one active row per type, the active row found is the only one. */
  lemma ActiveIsUnique(rows: seq<RecipeVersion>, t: string, i: int)
    requires OneActivePerType(rows) && 0 <= i < |rows| && rows[i].pizzaType == t && rows[i].active
    ensures ActiveOf(rows, t) == Some(rows[i])
  {
    var r := ActiveOf(rows, t);
    var k :| 0 <= k < |rows| && rows[k] == r.value;
  }

  const SEED_TOLERANCE: seq<(string, string)> := [("%", "±2%")]
  const SEED_NOTE := "Receta base inicial"

  function SeedIngredients(t: string): seq<(string, string)> {
    if t == "pepperoni" then [("masa", "260g"), ("salsa", "90g"), ("queso", "150g"), ("pepperoni", "60g")]
    else [("masa", "260g"), ("salsa", "90g"), ("queso", "150g"), ("jamon", "50g"), ("piña", "70g")]
  }

  /** The table after `create_new_version` adds the active base recipe of type `t` under id `id`. */
  function SeedOne(rows: seq<RecipeVersion>, t: string, id: int, now: int): seq<RecipeVersion> {
    WithNewVersion(rows, NewRow(rows, t, id, true, SeedIngredients(t), SEED_TOLERANCE, SEED_NOTE, now), true)
  }

  /**
   * The table after `seed_initial`: pepperoni under the next id, created at
   * `firstAt`, then hawaiana under the one after, created at `secondAt` (each
   * insert reads the clock itself).
   */
  function Seeded(rows: seq<RecipeVersion>, nextId: int, firstAt: int, secondAt: int): seq<RecipeVersion> {
    SeedOne(SeedOne(rows, "pepperoni", nextId, firstAt), "hawaiana", nextId + 1, secondAt)
  }

  lemma SeededInTwoSteps(rows0: seq<RecipeVersion>, rows1: seq<RecipeVersion>, rows2: seq<RecipeVersion>,
                         first: int, second: int, firstAt: int, secondAt: int)
    requires rows1 == WithNewVersion(rows0, NewRow(rows0, "pepperoni", first, true, SeedIngredients("pepperoni"),
                                                   SEED_TOLERANCE, SEED_NOTE, firstAt), true)
    requires rows2 == WithNewVersion(rows1, NewRow(rows1, "hawaiana", second, true, SeedIngredients("hawaiana"),
                                                   SEED_TOLERANCE, SEED_NOTE, secondAt), true)
    requires second == first + 1
    ensures rows2 == Seeded(rows0, first, firstAt, secondAt)
  {
  }

  /** The table stays consistent when `create_new_version` adds a row with the next id. */
  lemma NewVersionKeepsTable(rows: seq<RecipeVersion>, nextId: int, row: RecipeVersion, activate: bool)
    requires ValidTable(rows, nextId)
    requires row == NewRow(rows, row.pizzaType, nextId, activate, row.ingredients, row.tolerance, row.note, row.createdAt)
    ensures ValidTable(WithNewVersion(rows, row, activate), nextId + 1)
  {
    WithNewVersionRows(rows, row, activate);
    assert row.id == nextId && row.active == activate && row.version == MaxVersion(rows, row.pizzaType) + 1;
    NewVersionKeepsOneActive(rows, row, activate);
    NewVersionKeepsOrder(rows, row, activate);
    NewVersionKeepsIds(rows, nextId, row, activate);
    MaxVersionNotNegative(rows, row.pizzaType);
    var r := WithNewVersion(rows, row, activate);
    assert forall i | 0 <= i < |rows| :: r[i].version == rows[i].version;
  }

  /** The new row takes the next id, so ids keep increasing in insertion order. */
  lemma NewVersionKeepsIds(rows: seq<RecipeVersion>, nextId: int, row: RecipeVersion, activate: bool)
    requires IdsIncrease(rows, nextId) && nextId >= 1 && row.id == nextId
    ensures IdsIncrease(WithNewVersion(rows, row, activate), nextId + 1)
  {
    WithNewVersionRows(rows, row, activate);
    var r := WithNewVersion(rows, row, activate);
    assert forall i | 0 <= i < |rows| :: r[i].id == rows[i].id;
  }

  class RecipeRepository {
    var rows: seq<RecipeVersion>
    /** The AUTOINCREMENT counter. */
    var nextId: int

    ghost predicate Valid()
      reads this
    {
      ValidTable(rows, nextId)
    }

    /**
     * Opens a table; one without rows (a fresh file) is seeded with the two
     * base recipes, created at `firstAt` and `secondAt`; a table that already
     * has rows is left as it is.
     */
    constructor (initial: seq<RecipeVersion>, initialNextId: int, firstAt: int, secondAt: int)
      requires ValidTable(initial, initialNextId)
      ensures Valid()
      ensures initial != [] ==> rows == initial && nextId == initialNextId
      ensures initial == [] ==> |rows| == 2 && rows[0].pizzaType == "pepperoni" && rows[1].pizzaType == "hawaiana"
      ensures initial == [] ==> forall i | 0 <= i < |rows| :: rows[i].version == 1 && rows[i].active
      ensures initial == [] ==> rows == Seeded([], initialNextId, firstAt, secondAt) && nextId == initialNextId + 2
    {
      rows := initial;
      nextId := initialNextId;
      new;
      if rows == [] {
        SeedInitial(firstAt, secondAt);
      }
    }

    /** `seed_initial`: a new active version of each base recipe, pepperoni first, each stamped with its own clock reading. */
    method SeedInitial(firstAt: int, secondAt: int)
      requires Valid()
      modifies this
      ensures Valid()
      ensures rows == Seeded(old(rows), old(nextId), firstAt, secondAt)
      ensures nextId == old(nextId) + 2
    {
      ghost var rows0 := rows;
      var first := CreateNewVersion("pepperoni", SeedIngredients("pepperoni"), SEED_TOLERANCE, SEED_NOTE, true, firstAt);
      ghost var rows1 := rows;
      var second := CreateNewVersion("hawaiana", SeedIngredients("hawaiana"), SEED_TOLERANCE, SEED_NOTE, true, secondAt);
      SeededInTwoSteps(rows0, rows1, rows, first, second, firstAt, secondAt);
    }

    /** `UPDATE recipe_versions SET active=0 WHERE pizza_type=?`, row by row. */
    method RetireType(pizzaType: string)
      modifies this
      ensures rows == RetireAll(old(rows), pizzaType) && nextId == old(nextId)
    {
      var i := 0;
      while i < |rows|
        invariant 0 <= i <= |rows| == |old(rows)|
        invariant forall j | 0 <= j < |rows| :: rows[j] == if j < i then Retire(old(rows)[j], pizzaType) else old(rows)[j]
        invariant nextId == old(nextId)
      {
        if rows[i].pizzaType == pizzaType {
          rows := rows[i := rows[i].(active := false)];
        }
        i := i + 1;
      }
      RetireAllRows(old(rows), pizzaType);
      assert rows == RetireAll(old(rows), pizzaType);
    }

    /**
     * `create_new_version`: the new row takes version max + 1 of its type and
     * the next id; with `activate`, every earlier row of the type is retired
     * and the new row is the active one. Rows of other types never change.
     */
    method CreateNewVersion(pizzaType: string, ingredients: seq<(string, string)>, tolerance: seq<(string, string)>,
                            note: string, activate: bool, now: int) returns (rid: int)
      requires Valid()
      modifies this
      ensures Valid()
      ensures rid == old(nextId) && nextId == old(nextId) + 1
      ensures rows == WithNewVersion(old(rows), NewRow(old(rows), pizzaType, rid, activate, ingredients, tolerance, note, now), activate)
    {
      var row := RecipeVersion(nextId, pizzaType, MaxVersion(rows, pizzaType) + 1, activate, ingredients, tolerance, note, now);
      NewVersionKeepsTable(rows, nextId, row, activate);
      if activate {
        RetireType(pizzaType);
      }
      rows := rows + [row];
      rid := nextId;
      nextId := nextId + 1;
    }

    /** `list_versions`: the rows of one type, optionally between two days, by version descending. */
    function ListVersions(pizzaType: string, dayFrom: Option<int>, dayTo: Option<int>): (r: seq<RecipeVersion>)
      requires Valid()
      reads this
      ensures forall x | x in r :: x in rows && x.pizzaType == pizzaType && InDays(x, dayFrom, dayTo)
      ensures forall x | x in rows && x.pizzaType == pizzaType && InDays(x, dayFrom, dayTo) :: x in r
      ensures forall i, j | 0 <= i < j < |r| :: r[i].version > r[j].version
    {
      VersionsOfSelects(rows, pizzaType, dayFrom, dayTo);
      VersionsOfDescending(rows, pizzaType, dayFrom, dayTo);
      VersionsOf(rows, pizzaType, dayFrom, dayTo)
    }

    /** `get_active`: the row in force for a type, or none. */
    function GetActive(pizzaType: string): (r: Option<RecipeVersion>)
      requires Valid()
      reads this
      ensures r.Some? ==> r.value in rows && r.value.pizzaType == pizzaType && r.value.active
      ensures r.None? <==> forall x | x in rows :: !(x.pizzaType == pizzaType && x.active)
    {
      ActiveOf(rows, pizzaType)
    }
  }

  /** Adding a row of another type leaves the highest version of `t` as it was. */
  lemma MaxVersionOtherType(rows: seq<RecipeVersion>, row: RecipeVersion, t: string)
    requires row.pizzaType != t
    ensures MaxVersion(WithNewVersion(rows, row, true), t) == MaxVersion(rows, t)
  {
    WithNewVersionRows(rows, row, true);
    var r := WithNewVersion(rows, row, true);
    assert r[..|r| - 1] == RetireAll(rows, row.pizzaType);
    MaxVersionRetired(rows, row.pizzaType, t);
  }

  /** Retiring rows does not change version numbers. */
  lemma {:induction false} MaxVersionRetired(rows: seq<RecipeVersion>, u: string, t: string)
    ensures MaxVersion(RetireAll(rows, u), t) == MaxVersion(rows, t)
  {
    LatestVersionRetired(rows, u, t);
  }

  lemma {:induction false} LatestVersionRetired(rows: seq<RecipeVersion>, u: string, t: string)
    ensures LatestVersion(RetireAll(rows, u), t) == LatestVersion(rows, t)
  {
    if rows != [] {
      var r := RetireAll(rows, u);
      assert r[..|r| - 1] == RetireAll(rows[..|rows| - 1], u);
      LatestVersionRetired(rows[..|rows| - 1], u, t);
    }
  }

  /** After activating a new version, the lookup for its type returns exactly that version. */
  lemma ActivatedVersionIsInForce(rows: seq<RecipeVersion>, row: RecipeVersion)
    requires OneActivePerType(rows) && row.active
    ensures ActiveOf(WithNewVersion(rows, row, true), row.pizzaType) == Some(row)
  {
    WithNewVersionRows(rows, row, true);
    var r := WithNewVersion(rows, row, true);
    NewVersionKeepsOneActive(rows, row, true);
    ActiveIsUnique(r, row.pizzaType, |r| - 1);
  }
}
