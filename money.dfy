/** `toCents`: a loosely formatted Brazilian money string to integer cents.

    The input is trimmed; a blank input is 0.  Every "R$" (with at most one
    white-space character after it) is removed, then every white-space
    character, U+00A0 included.  If both "." and "," remain, dots are thousands
    separators and the comma is the decimal mark; a lone comma is the decimal
    mark; a lone dot is the decimal point.  The result goes through `Number`,
    anything that is not a finite number gives 0, and the value is multiplied by
    100 and rounded with `Math.round`.  Nothing here can fail.

    Numbers are exact decimals (`Decimal`); `Math.round(x)` on an exact value is
    the floor of x + 1/2. */
module Money {
  import opened Seqs
  import opened Text

  // ---------------------------------------------------------------------------
  // the string rewrites

  /** `s.replace(/R\$\s?/g, "")`: every "R$", with at most one white-space
      character right after it, is removed in one left-to-right scan that does
      not look again at what it produced. */
  function StripCurrency(s: string): (r: string)
    ensures |r| <= |s|
    decreases |s|
  {
    if |s| >= 2 && s[0] == 'R' && s[1] == '$' then
      if |s| >= 3 && IsSpace(s[2]) then StripCurrency(s[3..]) else StripCurrency(s[2..])
    else if s == [] then []
    else [s[0]] + StripCurrency(s[1..])
  }

  /** `s.replace(/[\s ]/g, "")`. */
  function RemoveSpaces(s: string): (r: string)
    ensures NoSpace(r)
    ensures |r| <= |s|
  {
    if s == [] then []
    else
      var rest := RemoveSpaces(s[1..]);
      if IsSpace(s[0]) then rest else [s[0]] + rest
  }

  /** `s.replaceAll(c, "")`. */
  function RemoveChar(s: string, c: char): (r: string)
    ensures c !in r
  {
    if s == [] then []
    else
      var rest := RemoveChar(s[1..], c);
      if s[0] == c then rest else [s[0]] + rest
  }

  /** `s.replaceAll(a, b)` for one-character `a` and `b`. */
  function ReplaceChar(s: string, a: char, b: char): (r: string)
    ensures |r| == |s|
    ensures forall i :: 0 <= i < |s| ==> r[i] == if s[i] == a then b else s[i]
  {
    if s == [] then []
    else [if s[0] == a then b else s[0]] + ReplaceChar(s[1..], a, b)
  }

  /** Which of "." and "," is the decimal mark: afterwards the decimal mark is
      "." and no comma is left. */
  function Disambiguate(s: string): (r: string)
    ensures ',' !in r
  {
    var hasComma := ',' in s;
    var hasDot := '.' in s;
    if hasComma && hasDot then ReplaceChar(RemoveChar(s, '.'), ',', '.')
    else if hasComma && !hasDot then ReplaceChar(s, ',', '.')
    else s
  }

  // ---------------------------------------------------------------------------
  // Number(s) on decimal literals

  /** An exact decimal number: `numerator / 10^scale`. */
  datatype Decimal = Decimal(numerator: int, scale: nat)

  predicate IsDigit(c: char) {
    '0' <= c <= '9'
  }

  predicate AllDigits(s: string) {
    forall i :: 0 <= i < |s| ==> IsDigit(s[i])
  }

  function DigitsValue(s: string): nat
    requires AllDigits(s)
  {
    if s == [] then 0 else DigitsValue(s[..|s| - 1]) * 10 + (s[|s| - 1] as int - '0' as int)
  }

  lemma AllDigitsAppend(a: string, b: string)
    requires AllDigits(a) && AllDigits(b)
    ensures AllDigits(a + b)
  {
  }

  /** The digits of `a + b` are worth those of `a` shifted left by `|b|`
      places, plus those of `b`. */
  lemma {:induction false} DigitsValueAppend(a: string, b: string)
    requires AllDigits(a) && AllDigits(b)
    ensures AllDigits(a + b)
    ensures DigitsValue(a + b) == DigitsValue(a) * Pow10(|b|) + DigitsValue(b)
    decreases |b|
  {
    if b == [] {
      assert a + b == a;
    } else {
      var b' := b[..|b| - 1];
      assert (a + b)[..|a + b| - 1] == a + b';
      DigitsValueAppend(a, b');
      var digit := b[|b| - 1] as int - '0' as int;
      assert DigitsValue(a + b) == DigitsValue(a + b') * 10 + digit;
      assert DigitsValue(b) == DigitsValue(b') * 10 + digit;
      assert Pow10(|b|) == Pow10(|b'|) * 10;
      ShiftDigit(DigitsValue(a), Pow10(|b'|), DigitsValue(b'), digit);
    }
  }

  lemma ShiftDigit(x: int, p: int, y: int, d: int)
    ensures (x * p + y) * 10 + d == x * (p * 10) + (y * 10 + d)
  {
  }

  function Pow10(n: nat): (p: nat)
    ensures p >= 1
  {
    if n == 0 then 1 else 10 * Pow10(n - 1)
  }

  function IndexOf(s: string, c: char): (i: nat)
    requires c in s
    ensures i < |s| && s[i] == c && c !in s[..i]
  {
    if s[0] == c then 0 else 1 + IndexOf(s[1..], c)
  }

  /** An unsigned decimal literal: digits, then optionally "." and digits, with
      at least one digit in all ("5", "5.", ".5", "5.25"). */
  function ParseUnsigned(s: string): Option<Decimal> {
    if '.' in s then
      var i := IndexOf(s, '.');
      var whole, frac := s[..i], s[i + 1..];
      if AllDigits(whole) && AllDigits(frac) && |whole| + |frac| > 0
      then
        AllDigitsAppend(whole, frac);
        Some(Decimal(DigitsValue(whole + frac), |frac|))
      else None
    else if s != [] && AllDigits(s) then Some(Decimal(DigitsValue(s), 0))
    else None
  }

  /** `Number(s)` for a string without white space, as far as decimal
      literals go: the empty string is 0, an optional sign precedes an unsigned
      literal, and anything else is not a finite number (`None`). */
  function ParseNumber(s: string): Option<Decimal> {
    if s == [] then Some(Decimal(0, 0))
    else if s[0] == '+' || s[0] == '-' then
      match ParseUnsigned(s[1..])
      case None => None
      case Some(d) => Some(Decimal(if s[0] == '-' then -d.numerator else d.numerator, d.scale))
    else ParseUnsigned(s)
  }

  /** `Math.round(n * 100)` for the exact value n of `d`: the integer r with
      r <= 100n + 1/2 < r + 1, so halves go up. */
  function RoundCents(d: Decimal): (r: int)
    ensures 2 * Pow10(d.scale) * r <= 200 * d.numerator + Pow10(d.scale) < 2 * Pow10(d.scale) * (r + 1)
  {
    (200 * d.numerator + Pow10(d.scale)) / (2 * Pow10(d.scale))
  }

  // ---------------------------------------------------------------------------
  // toCents

  /** The value of text already stripped of "R$" and white space: the
      separator rewrite, `Number`, the finiteness test and the rounding. */
  function TextToCents(s: string): int {
    match ParseNumber(Disambiguate(s))
    case None => 0
    case Some(d) => RoundCents(d)
  }

  /** `toCents(val)`; `None` stands for `null` and `undefined`. */
  function ToCents(val: Option<string>): (r: int)
    ensures val.None? ==> r == 0
    ensures val.Some? && AllSpace(val.value) ==> r == 0
  {
    match val
    case None => 0
    case Some(raw) =>
      var s := Trim(raw);
      if s == [] then 0
      else TextToCents(Trim(RemoveSpaces(StripCurrency(s))))
  }

  // ---------------------------------------------------------------------------
  // facts about the rewrites

  lemma {:induction false} StripCurrencyWithoutR(s: string)
    requires 'R' !in s
    ensures StripCurrency(s) == s
    decreases |s|
  {
    if s != [] {
      assert 'R' !in s[1..] by { assert forall c :: c in s[1..] ==> c in s; }
      StripCurrencyWithoutR(s[1..]);
    }
  }

  lemma {:induction false} RemoveSpacesWithoutSpace(s: string)
    requires NoSpace(s)
    ensures RemoveSpaces(s) == s
  {
    if s != [] {
      RemoveSpacesWithoutSpace(s[1..]);
    }
  }

  lemma {:induction false} RemoveSpacesOfAllSpace(s: string)
    ensures RemoveSpaces(s) == [] <==> AllSpace(s)
  {
    if s != [] {
      RemoveSpacesOfAllSpace(s[1..]);
      if AllSpace(s[1..]) && IsSpace(s[0]) {
        forall i | 0 <= i < |s| ensures IsSpace(s[i]) {
          if i > 0 { assert s[i] == s[1..][i - 1]; }
        }
      }
    }
  }

  lemma RemoveSpacesCons(a: char, y: string)
    ensures RemoveSpaces([a] + y) == (if IsSpace(a) then [] else [a]) + RemoveSpaces(y)
  {
    assert ([a] + y)[1..] == y;
  }

  lemma {:induction false} RemoveCharAppend(a: string, b: string, c: char)
    ensures RemoveChar(a + b, c) == RemoveChar(a, c) + RemoveChar(b, c)
    decreases |a|
  {
    if a != [] {
      assert (a + b)[1..] == a[1..] + b;
      RemoveCharAppend(a[1..], b, c);
    } else {
      assert a + b == b;
    }
  }

  lemma {:induction false} RemoveCharAbsent(s: string, c: char)
    requires c !in s
    ensures RemoveChar(s, c) == s
    decreases |s|
  {
    if s != [] {
      assert c !in s[1..] by { assert forall x :: x in s[1..] ==> x in s; }
      RemoveCharAbsent(s[1..], c);
    }
  }

  lemma ReplaceCharAbsent(s: string, a: char, b: char)
    requires a !in s
    ensures ReplaceChar(s, a, b) == s
  {
  }

  /** White space before the text is invisible to the two removals. */
  lemma {:induction false} TrimStartInvisible(s: string)
    ensures RemoveSpaces(StripCurrency(TrimStart(s))) == RemoveSpaces(StripCurrency(s))
    decreases |s|
  {
    if s != [] && IsSpace(s[0]) {
      TrimStartInvisible(s[1..]);
      assert StripCurrency(s) == [s[0]] + StripCurrency(s[1..]);
      RemoveSpacesCons(s[0], StripCurrency(s[1..]));
    }
  }

  /** One white-space character after the text is invisible to the two removals. */
  lemma {:induction false} TrailingSpaceInvisible(x: string, c: char)
    requires IsSpace(c)
    ensures RemoveSpaces(StripCurrency(x + [c])) == RemoveSpaces(StripCurrency(x))
    decreases |x|
  {
    if x == [] {
      assert x + [c] == [c];
      assert StripCurrency([c]) == [c] + StripCurrency([]);
      RemoveSpacesCons(c, []);
    } else if |x| >= 2 && x[0] == 'R' && x[1] == '$' {
      if |x| == 2 {
        assert StripCurrency(x + [c]) == StripCurrency([]);
        assert StripCurrency(x) == StripCurrency([]);
      } else if IsSpace(x[2]) {
        assert (x + [c])[3..] == x[3..] + [c];
        TrailingSpaceInvisible(x[3..], c);
      } else {
        assert (x + [c])[2..] == x[2..] + [c];
        TrailingSpaceInvisible(x[2..], c);
      }
    } else {
      assert (x + [c])[1..] == x[1..] + [c];
      TrailingSpaceInvisible(x[1..], c);
      assert StripCurrency(x + [c]) == [x[0]] + StripCurrency(x[1..] + [c]);
      assert StripCurrency(x) == [x[0]] + StripCurrency(x[1..]);
      RemoveSpacesCons(x[0], StripCurrency(x[1..] + [c]));
      RemoveSpacesCons(x[0], StripCurrency(x[1..]));
    }
  }

  lemma {:induction false} TrimEndInvisible(s: string)
    ensures RemoveSpaces(StripCurrency(TrimEnd(s))) == RemoveSpaces(StripCurrency(s))
    decreases |s|
  {
    if s != [] && IsSpace(s[|s| - 1]) {
      TrimEndInvisible(s[..|s| - 1]);
      assert s == s[..|s| - 1] + [s[|s| - 1]];
      TrailingSpaceInvisible(s[..|s| - 1], s[|s| - 1]);
    }
  }

  /** The initial `trim()` does not change what the two removals produce. */
  lemma TrimInvisible(s: string)
    ensures RemoveSpaces(StripCurrency(Trim(s))) == RemoveSpaces(StripCurrency(s))
  {
    TrimEndInvisible(TrimStart(s));
    TrimStartInvisible(s);
  }

  /** A leading "R$" is invisible to the two removals. */
  lemma CurrencyPrefixInvisible(t: string)
    ensures RemoveSpaces(StripCurrency("R$" + t)) == RemoveSpaces(StripCurrency(t))
  {
    var s := "R$" + t;
    if |t| >= 1 && IsSpace(t[0]) {
      assert s[3..] == t[1..];
      assert StripCurrency(t) == [t[0]] + StripCurrency(t[1..]);
      RemoveSpacesCons(t[0], StripCurrency(t[1..]));
    } else {
      assert s[2..] == t;
    }
  }

  /** On text that has no white space and no "R", `toCents` is `TextToCents`. */
  lemma CleanText(s: string)
    requires s != [] && NoSpace(s) && 'R' !in s
    ensures ToCents(Some(s)) == TextToCents(s)
  {
    TrimNoSpace(s);
    StripCurrencyWithoutR(s);
    RemoveSpacesWithoutSpace(s);
  }

  /** Clean text without a comma that `Number` reads as `d`. */
  lemma CleanNumber(s: string, d: Decimal)
    requires s != [] && NoSpace(s) && 'R' !in s && ',' !in s
    requires ParseNumber(s) == Some(d)
    ensures ToCents(Some(s)) == RoundCents(d)
  {
    CleanText(s);
    DisambiguateWithoutComma(s);
  }

  lemma DisambiguateWithoutComma(s: string)
    requires ',' !in s
    ensures Disambiguate(s) == s
  {
  }

  /** Text made of digits, dots, commas and minus signs. */
  predicate Numeral(s: string) {
    forall i :: 0 <= i < |s| ==> IsDigit(s[i]) || s[i] == '.' || s[i] == ',' || s[i] == '-'
  }

  lemma NumeralClean(s: string)
    requires Numeral(s)
    ensures NoSpace(s) && 'R' !in s
  {
  }

  lemma DigitsHaveNoMark(s: string)
    requires AllDigits(s)
    ensures Numeral(s) && '.' !in s && ',' !in s && '-' !in s
  {
  }

  /** `sign + whole + mark + frac` around a decimal mark is clean text. */
  lemma Joined(sign: string, whole: string, mark: char, frac: string)
    requires sign == "" || sign == "-"
    requires AllDigits(whole) && AllDigits(frac) && (mark == '.' || mark == ',')
    ensures var s := sign + (whole + [mark] + frac);
            && s != [] && NoSpace(s) && 'R' !in s && mark in s
            && (mark == '.' ==> ',' !in s)
            && (mark == ',' ==> '.' !in s)
  {
    var s := sign + (whole + [mark] + frac);
    DigitsHaveNoMark(whole);
    DigitsHaveNoMark(frac);
    assert Numeral(s) by {
      forall i | 0 <= i < |s|
        ensures IsDigit(s[i]) || s[i] == '.' || s[i] == ',' || s[i] == '-'
      {
        if i < |sign| {
          assert s[i] == sign[i];
        } else if i < |sign| + |whole| {
          assert s[i] == whole[i - |sign|];
        } else if i > |sign| + |whole| {
          assert s[i] == frac[i - |sign| - |whole| - 1];
        }
      }
    }
    NumeralClean(s);
    assert s[|sign| + |whole|] == mark;
  }

  /** In `whole + "." + rest` with a digits-only `whole`, the first dot is the
      one right after `whole`. */
  lemma {:induction false} FirstDot(whole: string, rest: string)
    requires AllDigits(whole) && '.' in rest
    ensures '.' in whole + rest
    ensures IndexOf(whole + rest, '.') == |whole| + IndexOf(rest, '.')
    decreases |whole|
  {
    if whole == [] {
      assert whole + rest == rest;
    } else {
      assert (whole + rest)[1..] == whole[1..] + rest;
      assert (whole + rest)[0] == whole[0];
      FirstDot(whole[1..], rest);
    }
  }

  lemma DotSplit(s: string, whole: string, rest: string)
    requires s == whole + "." + rest && AllDigits(whole)
    ensures '.' in s && IndexOf(s, '.') == |whole|
    ensures s[..|whole|] == whole && s[|whole| + 1..] == rest
  {
    assert s == whole + ("." + rest);
    FirstDot(whole, "." + rest);
  }

  lemma ParseAtDot(s: string, whole: string, frac: string)
    requires '.' in s && IndexOf(s, '.') == |whole| && s[..|whole|] == whole && s[|whole| + 1..] == frac
    requires AllDigits(whole) && AllDigits(frac) && |whole| + |frac| > 0
    ensures ParseUnsigned(s) == Some(Decimal(DigitsValue(whole + frac), |frac|))
  {
  }

  lemma ParseDotted(whole: string, frac: string)
    requires AllDigits(whole) && AllDigits(frac) && |whole| + |frac| > 0
    ensures ParseUnsigned(whole + "." + frac)
         == Some(Decimal(DigitsValue(whole + frac), |frac|))
  {
    var s := whole + "." + frac;
    assert '.' in s && IndexOf(s, '.') == |whole| && s[..|whole|] == whole && s[|whole| + 1..] == frac by {
      DotSplit(s, whole, frac);
    }
    ParseAtDot(s, whole, frac);
  }

  lemma {:induction false} RemoveCharKeeps(s: string, c: char)
    ensures forall x :: x in RemoveChar(s, c) ==> x in s
    decreases |s|
  {
    if s != [] {
      RemoveCharKeeps(s[1..], c);
    }
  }

  lemma {:induction false} ReplaceCharAppend(a: string, b: string, x: char, y: char)
    ensures ReplaceChar(a + b, x, y) == ReplaceChar(a, x, y) + ReplaceChar(b, x, y)
    decreases |a|
  {
    if a == [] {
      assert a + b == b;
    } else {
      assert (a + b)[1..] == a[1..] + b;
      ReplaceCharAppend(a[1..], b, x, y);
    }
  }

  // ---------------------------------------------------------------------------
  // what toCents computes

  /** A plain decimal "whole.frac": the result is 100 times its exact value,
      rounded half up. */
  lemma DotIsDecimalPoint(whole: string, frac: string)
    requires AllDigits(whole) && AllDigits(frac) && |whole| + |frac| > 0
    ensures ToCents(Some(whole + "." + frac)) == RoundCents(Decimal(DigitsValue(whole + frac), |frac|))
  {
    var s := whole + "." + frac;
    assert s != [] && NoSpace(s) && 'R' !in s && ',' !in s by {
      Joined("", whole, '.', frac);
      assert "" + (whole + ['.'] + frac) == s;
    }
    PlainDotParses(whole, frac);
    CleanNumber(s, Decimal(DigitsValue(whole + frac), |frac|));
  }

  lemma PlainDotParses(whole: string, frac: string)
    requires AllDigits(whole) && AllDigits(frac) && |whole| + |frac| > 0
    ensures ParseNumber(whole + "." + frac) == Some(Decimal(DigitsValue(whole + frac), |frac|))
  {
    ParseDotted(whole, frac);
    DottedStart(whole, frac);
  }

  lemma DottedStart(whole: string, frac: string)
    requires AllDigits(whole)
    ensures var body := whole + "." + frac;
            body != [] && (IsDigit(body[0]) || body[0] == '.')
  {
    var body := whole + "." + frac;
    assert body[0] == if whole == [] then '.' else whole[0];
  }

  lemma TextToCentsOf(s: string, d: Decimal)
    requires ParseNumber(Disambiguate(s)) == Some(d)
    ensures TextToCents(s) == RoundCents(d)
  {
  }

  /** A plain integer is whole reais. */
  lemma IntegerIsReais(whole: string)
    requires whole != [] && AllDigits(whole)
    ensures ToCents(Some(whole)) == 100 * DigitsValue(whole)
  {
    var dec := Decimal(DigitsValue(whole), 0);
    assert ToCents(Some(whole)) == RoundCents(dec) by {
      DigitsHaveNoMark(whole);
      NumeralClean(whole);
      assert ParseNumber(whole) == Some(dec) by {
        assert !(whole[0] == '+' || whole[0] == '-');
      }
      CleanNumber(whole, dec);
    }
    RoundWhole(dec.numerator);
  }

  lemma RoundWhole(v: int)
    ensures RoundCents(Decimal(v, 0)) == 100 * v
  {
    assert Pow10(0) == 1;
    var r := RoundCents(Decimal(v, 0));
    assert 2 * r <= 200 * v + 1 < 2 * (r + 1);
  }

  /** With no dot, the comma is the decimal mark: "6009,557" reads as "6009.557". */
  lemma CommaIsDecimalMark(whole: string, frac: string)
    requires AllDigits(whole) && AllDigits(frac)
    ensures ToCents(Some(whole + "," + frac)) == ToCents(Some(whole + "." + frac))
  {
    CommaReadsAsDot(whole, frac);
    DotReadsAsIs(whole, frac);
  }

  lemma CommaReadsAsDot(whole: string, frac: string)
    requires AllDigits(whole) && AllDigits(frac)
    ensures ToCents(Some(whole + "," + frac)) == TextToCents(whole + "." + frac)
  {
    var withComma, withDot := whole + "," + frac, whole + "." + frac;
    assert withComma != [] && NoSpace(withComma) && 'R' !in withComma && ',' in withComma && '.' !in withComma by {
      Joined("", whole, ',', frac);
      assert "" + (whole + [','] + frac) == withComma;
    }
    assert ReplaceChar(withComma, ',', '.') == withDot by {
      DigitsHaveNoMark(whole);
      DigitsHaveNoMark(frac);
      ReplaceCharAppend(whole + ",", frac, ',', '.');
      ReplaceCharAppend(whole, ",", ',', '.');
      ReplaceCharAbsent(whole, ',', '.');
      ReplaceCharAbsent(frac, ',', '.');
    }
    CleanText(withComma);
  }

  lemma DotReadsAsIs(whole: string, frac: string)
    requires AllDigits(whole) && AllDigits(frac)
    ensures ToCents(Some(whole + "." + frac)) == TextToCents(whole + "." + frac)
  {
    var withDot := whole + "." + frac;
    assert withDot != [] && NoSpace(withDot) && 'R' !in withDot by {
      Joined("", whole, '.', frac);
      assert "" + (whole + ['.'] + frac) == withDot;
    }
    CleanText(withDot);
  }

  /** With both marks, every dot is a thousands separator and the comma is the
      decimal mark: "5.368,12" reads as "5368.12". */
  lemma DotsAreThousandsWithComma(grouped: string, frac: string)
    requires forall i :: 0 <= i < |grouped| ==> IsDigit(grouped[i]) || grouped[i] == '.'
    requires '.' in grouped && AllDigits(frac)
    ensures ToCents(Some(grouped + "," + frac)) == ToCents(Some(RemoveChar(grouped, '.') + "." + frac))
  {
    GroupedReadsAsDot(grouped, frac);
    RemoveCharOfGrouped(grouped);
    DotReadsAsIs(RemoveChar(grouped, '.'), frac);
  }

  lemma RemoveCharOfGrouped(grouped: string)
    requires forall i :: 0 <= i < |grouped| ==> IsDigit(grouped[i]) || grouped[i] == '.'
    ensures AllDigits(RemoveChar(grouped, '.'))
  {
    var digits := RemoveChar(grouped, '.');
    RemoveCharKeeps(grouped, '.');
    forall i | 0 <= i < |digits| ensures IsDigit(digits[i]) {
      assert digits[i] in digits;
    }
  }

  lemma GroupedReadsAsDot(grouped: string, frac: string)
    requires forall i :: 0 <= i < |grouped| ==> IsDigit(grouped[i]) || grouped[i] == '.'
    requires '.' in grouped && AllDigits(frac)
    ensures ToCents(Some(grouped + "," + frac)) == TextToCents(RemoveChar(grouped, '.') + "." + frac)
  {
    GroupedIsClean(grouped, frac);
    GroupedDisambiguated(grouped, frac);
    CleanText(grouped + "," + frac);
  }

  lemma GroupedIsClean(grouped: string, frac: string)
    requires forall i :: 0 <= i < |grouped| ==> IsDigit(grouped[i]) || grouped[i] == '.'
    requires AllDigits(frac)
    ensures var s := grouped + "," + frac; s != [] && NoSpace(s) && 'R' !in s
  {
    var withComma := grouped + "," + frac;
    assert Numeral(withComma) by {
      forall i | 0 <= i < |withComma|
        ensures IsDigit(withComma[i]) || withComma[i] == '.' || withComma[i] == ',' || withComma[i] == '-'
      {
        if i < |grouped| {
          assert withComma[i] == grouped[i];
        } else if i > |grouped| {
          assert withComma[i] == frac[i - |grouped| - 1];
        }
      }
    }
    NumeralClean(withComma);
  }

  lemma GroupedDisambiguated(grouped: string, frac: string)
    requires forall i :: 0 <= i < |grouped| ==> IsDigit(grouped[i]) || grouped[i] == '.'
    requires '.' in grouped && AllDigits(frac)
    ensures Disambiguate(grouped + "," + frac) == RemoveChar(grouped, '.') + "." + frac
  {
    var withComma := grouped + "," + frac;
    assert ',' in withComma && '.' in withComma by {
      assert withComma[|grouped|] == ',';
    }
    DropThousandsDots(grouped, frac);
    RemoveCharOfGrouped(grouped);
    CommaToPoint(RemoveChar(grouped, '.'), frac);
  }

  lemma DropThousandsDots(grouped: string, frac: string)
    requires AllDigits(frac)
    ensures RemoveChar(grouped + "," + frac, '.') == RemoveChar(grouped, '.') + "," + frac
  {
    DigitsHaveNoMark(frac);
    RemoveCharAppend(grouped + ",", frac, '.');
    RemoveCharAppend(grouped, ",", '.');
    RemoveCharAbsent(",", '.');
    RemoveCharAbsent(frac, '.');
  }

  lemma CommaToPoint(digits: string, frac: string)
    requires AllDigits(digits) && AllDigits(frac)
    ensures ReplaceChar(digits + "," + frac, ',', '.') == digits + "." + frac
  {
    DigitsHaveNoMark(digits);
    DigitsHaveNoMark(frac);
    ReplaceCharAppend(digits + ",", frac, ',', '.');
    ReplaceCharAppend(digits, ",", ',', '.');
    ReplaceCharAbsent(digits, ',', '.');
    ReplaceCharAbsent(frac, ',', '.');
  }

  /** Several dots and no comma is not a number: "1.234.567" gives 0. */
  lemma SeveralDotsIsZero(a: string, b: string, c: string)
    requires AllDigits(a) && AllDigits(b) && AllDigits(c)
    ensures ToCents(Some(a + "." + b + "." + c)) == 0
  {
    var rest := b + "." + c;
    var s := a + "." + rest;
    assert s == a + "." + b + "." + c;
    TwoDotsClean(a, b, c);
    TwoDotsUnparsed(a, b, c);
    CleanNumberless(s);
  }

  /** Digits and dots only. */
  lemma TwoDotsClean(a: string, b: string, c: string)
    requires AllDigits(a) && AllDigits(b) && AllDigits(c)
    ensures var s := a + "." + (b + "." + c); s != [] && NoSpace(s) && 'R' !in s && ',' !in s
  {
    var rest := b + "." + c;
    var s := a + "." + rest;
    forall i | 0 <= i < |s| ensures IsDigit(s[i]) || s[i] == '.' {
      if i < |a| {
        assert s[i] == a[i];
      } else if i > |a| {
        var j := i - |a| - 1;
        assert s[i] == rest[j];
        if j < |b| {
          assert rest[j] == b[j];
        } else if j > |b| {
          assert rest[j] == c[j - |b| - 1];
        }
      }
    }
    assert Numeral(s);
    NumeralClean(s);
  }

  lemma TwoDotsUnparsed(a: string, b: string, c: string)
    requires AllDigits(a) && AllDigits(b) && AllDigits(c)
    ensures ParseNumber(a + "." + (b + "." + c)) == None
  {
    var rest := b + "." + c;
    var s := a + "." + rest;
    assert ParseUnsigned(s) == None by {
      DotSplit(s, a, rest);
      assert rest[|b|] == '.';
    }
    assert s[0] == if a == [] then '.' else a[0];
  }

  /** Clean text without a comma that is not a number reads as 0. */
  lemma CleanNumberless(s: string)
    requires s != [] && NoSpace(s) && 'R' !in s && ',' !in s
    requires ParseNumber(s) == None
    ensures ToCents(Some(s)) == 0
  {
    CleanText(s);
    DisambiguateWithoutComma(s);
  }

  /** An "R$" in front changes nothing. */
  lemma CurrencyPrefixIgnored(t: string)
    ensures ToCents(Some("R$" + t)) == ToCents(Some(t))
  {
    PrefixedReadsAsCore(t);
    UnprefixedReadsAsCore(t);
  }

  lemma PrefixedReadsAsCore(t: string)
    ensures ToCents(Some("R$" + t)) == TextToCents(Trim(RemoveSpaces(StripCurrency(t))))
  {
    var s := "R$" + t;
    assert !AllSpace(s) by {
      assert !IsSpace(s[0]);
    }
    VisibleReadsAsCore(s);
    TrimInvisible(s);
    CurrencyPrefixInvisible(t);
  }

  /** Text that is not blank goes through the whole pipeline. */
  lemma VisibleReadsAsCore(s: string)
    requires !AllSpace(s)
    ensures ToCents(Some(s)) == TextToCents(Trim(RemoveSpaces(StripCurrency(Trim(s)))))
  {
  }

  lemma UnprefixedReadsAsCore(t: string)
    ensures ToCents(Some(t)) == TextToCents(Trim(RemoveSpaces(StripCurrency(t))))
  {
    if AllSpace(t) {
      assert RemoveSpaces(StripCurrency(t)) == [] by {
        StripCurrencyWithoutR(t);
        RemoveSpacesOfAllSpace(t);
      }
      assert Trim([]) == [];
      assert TextToCents([]) == 0 by {
        assert Pow10(0) == 1;
      }
    } else {
      TrimInvisible(t);
    }
  }

  lemma {:induction false} RemoveSpacesKeeps(s: string)
    ensures forall x :: x in RemoveSpaces(s) ==> x in s
    decreases |s|
  {
    if s != [] {
      RemoveSpacesKeeps(s[1..]);
    }
  }

  /** In a text without "R", white space anywhere (U+00A0 included) changes nothing. */
  lemma SpacesIgnored(s: string)
    requires 'R' !in s
    ensures ToCents(Some(s)) == ToCents(Some(RemoveSpaces(s)))
  {
    var clean := RemoveSpaces(s);
    var core := TextToCents(Trim(clean));
    assert ToCents(Some(s)) == core by {
      UnprefixedReadsAsCore(s);
      StripCurrencyWithoutR(s);
    }
    assert ToCents(Some(clean)) == core by {
      UnprefixedReadsAsCore(clean);
      assert 'R' !in clean by {
        RemoveSpacesKeeps(s);
      }
      StripCurrencyWithoutR(clean);
      RemoveSpacesWithoutSpace(clean);
    }
  }

  // ---------------------------------------------------------------------------
  // the self-test table of the single-page version

  /** The fixtures' literals, read through the general lemmas. */
  lemma ParsesAs(s: string, whole: string, frac: string, v: int)
    requires s == whole + "." + frac
    requires AllDigits(whole) && AllDigits(frac) && |whole| > 0
    requires AllDigits(whole + frac) && DigitsValue(whole + frac) == v
    ensures ParseNumber(s) == Some(Decimal(v, |frac|))
  {
    PlainDotParses(whole, frac);
  }

  lemma GroupedParses()
    ensures ParseNumber("5368.12") == Some(Decimal(536812, 2))
  {
    GroupedDigits536812();
    ParsesAs("5368.12", "5368", "12", 536812);
  }

  lemma CommaParses()
    ensures ParseNumber("6009.557") == Some(Decimal(6009557, 3))
  {
    CommaDigits();
    ParsesAs("6009.557", "6009", "557", 6009557);
  }

  lemma DecimalPointParses()
    ensures ParseNumber("6009.55") == Some(Decimal(600955, 2))
  {
    PointDigits();
    ParsesAs("6009.55", "6009", "55", 600955);
  }

  /** One more digit on the right. */
  lemma DigitsSnoc(s: string, c: char, v: int)
    requires AllDigits(s) && DigitsValue(s) == v && IsDigit(c)
    ensures AllDigits(s + [c]) && DigitsValue(s + [c]) == 10 * v + (c as int - '0' as int)
  {
    assert (s + [c])[..|s|] == s;
  }

  lemma GroupedDigits536812()
    ensures AllDigits("5368") && AllDigits("12") && AllDigits("5368" + "12")
    ensures DigitsValue("5368" + "12") == 536812
  {
    var s0 := "";
    var s1 := s0 + ['5'];
    DigitsSnoc(s0, '5', 0);
    var s2 := s1 + ['3'];
    DigitsSnoc(s1, '3', 5);
    var s3 := s2 + ['6'];
    DigitsSnoc(s2, '6', 53);
    var s4 := s3 + ['8'];
    DigitsSnoc(s3, '8', 536);
    assert s4 == "5368";
    var s5 := s4 + ['1'];
    DigitsSnoc(s4, '1', 5368);
    var s6 := s5 + ['2'];
    DigitsSnoc(s5, '2', 53681);
    assert s6 == "5368" + "12";
    assert AllDigits("12") by {
      assert "5368" + "12" == s6;
      assert forall i :: 0 <= i < |"12"| ==> "12"[i] == s6[i + 4];
    }
  }

  lemma CommaDigits()
    ensures AllDigits("6009") && AllDigits("557") && AllDigits("6009" + "557")
    ensures DigitsValue("6009" + "557") == 6009557
  {
    var s0 := "";
    var s1 := s0 + ['6'];
    DigitsSnoc(s0, '6', 0);
    var s2 := s1 + ['0'];
    DigitsSnoc(s1, '0', 6);
    var s3 := s2 + ['0'];
    DigitsSnoc(s2, '0', 60);
    var s4 := s3 + ['9'];
    DigitsSnoc(s3, '9', 600);
    assert s4 == "6009";
    var s5 := s4 + ['5'];
    DigitsSnoc(s4, '5', 6009);
    var s6 := s5 + ['5'];
    DigitsSnoc(s5, '5', 60095);
    var s7 := s6 + ['7'];
    DigitsSnoc(s6, '7', 600955);
    assert s7 == "6009" + "557";
    assert AllDigits("557") by {
      assert "6009" + "557" == s7;
      assert forall i :: 0 <= i < |"557"| ==> "557"[i] == s7[i + 4];
    }
  }

  lemma PointDigits()
    ensures AllDigits("6009") && AllDigits("55") && AllDigits("6009" + "55")
    ensures DigitsValue("6009" + "55") == 600955
  {
    var s0 := "";
    var s1 := s0 + ['6'];
    DigitsSnoc(s0, '6', 0);
    var s2 := s1 + ['0'];
    DigitsSnoc(s1, '0', 6);
    var s3 := s2 + ['0'];
    DigitsSnoc(s2, '0', 60);
    var s4 := s3 + ['9'];
    DigitsSnoc(s3, '9', 600);
    assert s4 == "6009";
    var s5 := s4 + ['5'];
    DigitsSnoc(s4, '5', 6009);
    var s6 := s5 + ['5'];
    DigitsSnoc(s5, '5', 60095);
    assert s6 == "6009" + "55";
    assert AllDigits("55") by {
      assert "6009" + "55" == s6;
      assert forall i :: 0 <= i < |"55"| ==> "55"[i] == s6[i + 4];
    }
  }

  lemma RoundExact(v: int, scale: nat)
    requires scale == 2
    ensures RoundCents(Decimal(v, scale)) == v
  {
    assert Pow10(2) == 100 by {
      assert Pow10(1) == 10;
    }
    var r := RoundCents(Decimal(v, 2));
    assert 200 * r <= 200 * v + 100 < 200 * (r + 1);
  }

  lemma FixtureGrouped(raw: string)
    requires raw == "5.368,12"
    ensures ToCents(Some(raw)) == 536812
  {
    assert NoSpace("5.368,12") && 'R' !in "5.368,12";
    CleanText(raw);
    GroupedSeparators(raw, "5.368", "12");
    GroupedParses();
    RoundExact(536812, 2);
  }

  lemma GroupedSeparators(s: string, grouped: string, frac: string)
    requires s == "5.368,12" && grouped == "5.368" && frac == "12"
    ensures Disambiguate(s) == "5368.12"
  {
    assert s == grouped + "," + frac;
    GroupedDisambiguated(grouped, frac);
    GroupedDigits(grouped);
    assert "5368" + "." + frac == "5368.12";
  }

  lemma GroupedDigits(grouped: string)
    requires grouped == "5.368"
    ensures RemoveChar(grouped, '.') == "5368"
  {
    assert grouped == "5." + "368";
    RemoveCharAppend("5.", "368", '.');
    RemoveCharAbsent("368", '.');
  }

  lemma FixtureCurrency(c: char)
    requires c == ' ' || c == '\U{00A0}'
    ensures ToCents(Some("R$" + [c] + "5.368,12")) == 536812
  {
    var t := [c] + "5.368,12";
    assert "R$" + [c] + "5.368,12" == "R$" + t;
    assert 'R' !in t by {
      assert 'R' !in "5.368,12";
    }
    SpaceBeforeAmount(c);
    CurrencyPrefixIgnored(t);
    SpacesIgnored(t);
    FixtureGrouped(RemoveSpaces(t));
  }

  lemma SpaceBeforeAmount(c: char)
    requires IsSpace(c)
    ensures RemoveSpaces([c] + "5.368,12") == "5.368,12"
  {
    assert NoSpace("5.368,12");
    RemoveSpacesCons(c, "5.368,12");
    RemoveSpacesWithoutSpace("5.368,12");
  }

  lemma FixtureCommaRoundsHalfUp(raw: string)
    requires raw == "6009,557"
    ensures ToCents(Some(raw)) == 600956
  {
    assert NoSpace("6009,557") && 'R' !in "6009,557";
    CleanText(raw);
    CommaSeparator();
    CommaParses();
    CommaRounds();
  }

  lemma CommaSeparator()
    ensures Disambiguate("6009,557") == "6009.557"
  {
    assert ReplaceChar("6009,557", ',', '.') == "6009.557";
    assert ',' in "6009,557" && '.' !in "6009,557";
  }

  lemma CommaRounds()
    ensures RoundCents(Decimal(6009557, 3)) == 600956
  {
    assert Pow10(3) == 1000 by {
      assert Pow10(2) == 100 by {
        assert Pow10(1) == 10;
      }
    }
    var r := RoundCents(Decimal(6009557, 3));
    assert 2000 * r <= 200 * 6009557 + 1000 < 2000 * (r + 1);
  }

  lemma FixtureDecimalPoint(raw: string)
    requires raw == "6009.55"
    ensures ToCents(Some(raw)) == 600955
  {
    assert NoSpace("6009.55") && 'R' !in "6009.55" && ',' !in "6009.55";
    CleanText(raw);
    DisambiguateWithoutComma(raw);
    DecimalPointParses();
    RoundExact(600955, 2);
  }

  /** The self-test table of the single-page version, input and expected cents. */
  const SelfTestCases: seq<(Option<string>, int)> := [
    (Some("R$ 5.368,12"), 536812),
    (Some("5.368,12"), 536812),
    (Some("6009,557"), 600956),
    (Some("6009.55"), 600955),
    (Some("0"), 0),
    (Some(""), 0),
    (None, 0),
    (Some("R$\U{00A0}5.368,12"), 536812)
  ]

  /** Every case of the self-test table passes. */
  lemma SelfTests(input: Option<string>, expected: int)
    requires (input, expected) in SelfTestCases
    ensures ToCents(input) == expected
  {
    if input == Some("R$ 5.368,12") {
      assert input.value == "R$" + [' '] + "5.368,12";
      FixtureCurrency(' ');
    } else if input == Some("R$\U{00A0}5.368,12") {
      assert input.value == "R$" + ['\U{00A0}'] + "5.368,12";
      FixtureCurrency('\U{00A0}');
    } else if input == Some("5.368,12") {
      FixtureGrouped(input.value);
    } else if input == Some("6009,557") {
      FixtureCommaRoundsHalfUp(input.value);
    } else if input == Some("6009.55") {
      FixtureDecimalPoint(input.value);
    } else if input == Some("0") {
      IntegerIsReais(input.value);
      assert DigitsValue("0") == 0 by {
        assert "0"[..0] == "";
      }
    }
  }

  /** A dotted number without a comma is not read with thousands separators. */
  lemma FixtureDotsWithoutComma()
    ensures ToCents(Some("1.234.567")) == 0
  {
    assert "1" + "." + "234" + "." + "567" == "1.234.567";
    SeveralDotsIsZero("1", "234", "567");
  }
}
