/** Table cells and the numeric coercion `pd.to_numeric(..., errors="coerce")`. */
module Cells {
  import opened Wrappers
  import Strings

  /** One cell of a table as a reader delivers it: empty, text, or a finite
      number. An infinite reading is delivered as `Missing`, since the
      pipeline replaces infinities by NaN before it uses them. */
  datatype Cell = Missing | Str(text: string) | Num(x: real)

  /** The country resolver (`country_converter` with `to="ISO3"`, applied
      to the cell's text), as the pipeline uses it: `Some` code for a text
      it counts as a country, `None` for one it does not. Which texts the
      converter recognises, and what it hands back for the others under
      `not_found=None`, is not known to the model, so the resolver is a
      parameter of every stage that uses it. */
  type Resolver = Cell -> Option<string>

  /** The resolver's answer as a cell of the output table. */
  function ResolvedCell(resolve: Resolver, c: Cell): (r: Cell)
    ensures r == Missing <==> resolve(c).None?
  {
    match resolve(c)
    case Some(code) => Str(code)
    case None => Missing
  }

  predicate IsDigit(ch: char) {
    '0' <= ch <= '9'
  }

  predicate AllDigits(s: string) {
    forall i :: 0 <= i < |s| ==> IsDigit(s[i])
  }

  /** `str(c).isdigit() and len(str(c)) == 4`: a column label naming a year. */
  predicate IsYearLabel(lbl: string) {
    |lbl| == 4 && AllDigits(lbl)
  }

  /** White space, which the coercion skips around a number. */
  predicate IsSpace(ch: char) {
    ch == ' ' || ch == '\t' || ch == '\n' || ch == '\r' || ch == '\U{B}' || ch == '\U{C}'
  }

  /** The mark that starts an exponent. */
  predicate IsExponentMark(ch: char) {
    ch == 'e' || ch == 'E'
  }

  /** Characters that can occur in a text the coercion reads as a number. */
  predicate NumberChar(ch: char) {
    IsDigit(ch) || ch == '.' || ch == '+' || ch == '-' || IsExponentMark(ch) || IsSpace(ch)
  }

  function DigitValue(ch: char): nat
    requires IsDigit(ch)
  {
    ch as int - '0' as int
  }

  /** The value of a string of decimal digits, most significant first. */
  function DigitsValue(s: string): nat
    requires AllDigits(s)
    decreases |s|
  {
    if |s| == 0 then 0 else 10 * DigitsValue(s[..|s| - 1]) + DigitValue(s[|s| - 1])
  }

  function Pow10(n: nat): (r: nat)
    ensures r >= 1
  {
    if n == 0 then 1 else 10 * Pow10(n - 1)
  }

  /** An unsigned decimal: digits with at most one '.', and at least one digit. */
  function ParseUnsigned(s: string): Option<real> {
    match Strings.IndexOf(s, '.')
    case None =>
      if |s| > 0 && AllDigits(s) then Some(DigitsValue(s) as real) else None
    case Some(d) =>
      var whole, frac := s[..d], s[d + 1..];
      if |whole| + |frac| > 0 && AllDigits(whole) && AllDigits(frac)
      then Some(DigitsValue(whole) as real + DigitsValue(frac) as real / Pow10(|frac|) as real)
      else None
  }

  /** `s` without its leading white space. */
  function TrimStart(s: string): (t: string)
    ensures |t| <= |s| && t == s[|s| - |t|..]
    ensures forall i :: 0 <= i < |s| - |t| ==> IsSpace(s[i])
    ensures |t| > 0 ==> !IsSpace(t[0])
  {
    if |s| > 0 && IsSpace(s[0]) then TrimStart(s[1..]) else s
  }

  /** `s` without its trailing white space. */
  function TrimEnd(s: string): (t: string)
    ensures |t| <= |s| && t == s[..|t|]
    ensures forall i :: |t| <= i < |s| ==> IsSpace(s[i])
    ensures |t| > 0 ==> !IsSpace(t[|t| - 1])
  {
    if |s| > 0 && IsSpace(s[|s| - 1]) then TrimEnd(s[..|s| - 1]) else s
  }

  /** `s` without white space at either end. */
  function Trim(s: string): string {
    TrimStart(TrimEnd(s))
  }

  /** The position of the first exponent mark, if there is one. */
  function ExponentAt(s: string): (r: Option<nat>)
    ensures r.Some? ==> r.value < |s| && IsExponentMark(s[r.value])
    ensures r.Some? ==> forall i :: 0 <= i < r.value ==> !IsExponentMark(s[i])
    ensures r.None? ==> forall i :: 0 <= i < |s| ==> !IsExponentMark(s[i])
  {
    if |s| == 0 then None
    else if IsExponentMark(s[0]) then Some(0)
    else match ExponentAt(s[1..])
      case None => None
      case Some(j) => Some(j + 1)
  }

  /** An exponent: an optional sign and at least one digit. */
  function ParseExponent(s: string): Option<int> {
    if |s| > 0 && (s[0] == '-' || s[0] == '+') then
      var d := s[1..];
      if |d| > 0 && AllDigits(d) then Some(if s[0] == '-' then -(DigitsValue(d) as int) else DigitsValue(d)) else None
    else if |s| > 0 && AllDigits(s) then Some(DigitsValue(s))
    else None
  }

  /** `m` times ten to the power `x`. */
  function Scale(m: real, x: int): real {
    if x >= 0 then m * Pow10(x) as real else m / Pow10(-x) as real
  }

  /** An unsigned decimal, optionally followed by an exponent. */
  function ParseMagnitude(s: string): Option<real> {
    match ExponentAt(s)
    case None => ParseUnsigned(s)
    case Some(e) =>
      match ParseUnsigned(s[..e])
      case None => None
      case Some(m) =>
        match ParseExponent(s[e + 1..])
        case None => None
        case Some(x) => Some(Scale(m, x))
  }

  /** An optional sign followed by a magnitude. */
  function ParseSigned(s: string): Option<real> {
    if |s| > 0 && s[0] == '-' then
      match ParseMagnitude(s[1..])
      case Some(v) => Some(-v)
      case None => None
    else if |s| > 0 && s[0] == '+' then ParseMagnitude(s[1..])
    else ParseMagnitude(s)
  }

  /** The numeric reading of a text cell: white space at either end is
      skipped; then come an optional sign, a decimal with at least one digit
      and at most one '.', and an optional exponent ('e' or 'E', an optional
      sign, digits). Anything else is not a number. */
  function ParseNumber(s: string): Option<real> {
    ParseSigned(Trim(s))
  }

  /** `pd.to_numeric(..., errors="coerce")` on one cell: numbers stay, text
      is parsed, and whatever does not parse becomes missing. It never fails. */
  function ToNumeric(c: Cell): Option<real> {
    match c
    case Missing => None
    case Num(x) => Some(x)
    case Str(s) => ParseNumber(s)
  }

  /** The decimal representation of a natural number. */
  function ShowNat(n: nat): (s: string)
    ensures |s| > 0 && AllDigits(s)
  {
    var d := [(('0' as int) + n % 10) as char];
    if n < 10 then d else ShowNat(n / 10) + d
  }

  lemma {:induction false} DigitsValueShowNat(n: nat)
    ensures DigitsValue(ShowNat(n)) == n
  {
    var s := ShowNat(n);
    if n >= 10 {
      DigitsValueShowNat(n / 10);
      assert s[..|s| - 1] == ShowNat(n / 10);
    }
  }

  lemma {:induction false} DigitsValueBound(s: string)
    requires AllDigits(s)
    ensures DigitsValue(s) < Pow10(|s|)
    decreases |s|
  {
    if |s| > 0 {
      DigitsValueBound(s[..|s| - 1]);
    }
  }

  /** Text without white space at its ends is its own trimmed form. */
  lemma TrimUnchanged(s: string)
    requires |s| > 0 && !IsSpace(s[0]) && !IsSpace(s[|s| - 1])
    ensures Trim(s) == s
  {
  }

  /** Every character of a text is white space or a character of the
      trimmed text. */
  lemma {:induction false} TrimKeepsRest(s: string, i: nat)
    requires i < |s| && !IsSpace(s[i])
    ensures s[i] in Trim(s)
  {
    var t := TrimEnd(s);
    assert i < |t| && s[i] == t[i];
    var u := TrimStart(t);
    assert |t| - |u| <= i;
    assert s[i] == u[i - (|t| - |u|)];
  }

  /** A digit string has no exponent mark and no '.'. */
  lemma DigitsHaveNoMarks(s: string)
    requires AllDigits(s)
    ensures ExponentAt(s) == None
    ensures Strings.IndexOf(s, '.') == None
  {
    assert forall i :: 0 <= i < |s| ==> !IsExponentMark(s[i]) && s[i] != '.' by {
      forall i | 0 <= i < |s|
        ensures !IsExponentMark(s[i]) && s[i] != '.'
      {
        assert IsDigit(s[i]);
      }
    }
  }

  /** After a digit string, the first exponent mark is the one that follows it. */
  lemma ExponentAfterDigits(a: string, mark: char, x: string)
    requires AllDigits(a) && IsExponentMark(mark)
    ensures ExponentAt(a + [mark] + x) == Some(|a|)
  {
    var s := a + [mark] + x;
    DigitsHaveNoMarks(a);
    assert forall i :: 0 <= i < |a| ==> s[i] == a[i];
    assert s[|a|] == mark;
  }

  /** A digit string parses to its own value. */
  lemma ParseDigits(s: string)
    requires |s| > 0 && AllDigits(s)
    ensures ParseNumber(s) == Some(DigitsValue(s) as real)
  {
    assert IsDigit(s[0]) && IsDigit(s[|s| - 1]);
    TrimUnchanged(s);
    DigitsHaveNoMarks(s);
  }

  /** Printing a natural number and coercing it back gives the number. */
  lemma ParseShowNat(n: nat)
    ensures ParseNumber(ShowNat(n)) == Some(n as real)
  {
    ParseDigits(ShowNat(n));
    DigitsValueShowNat(n);
  }

  /** A year label coerces to a whole number below 10000. */
  lemma YearLabelValue(lbl: string)
    requires IsYearLabel(lbl)
    ensures ParseNumber(lbl) == Some(DigitsValue(lbl) as real)
    ensures DigitsValue(lbl) < 10000
  {
    ParseDigits(lbl);
    DigitsValueBound(lbl);
  }

  /** After a digit string and an exponent mark, the magnitude is the
      digits' reading scaled by the exponent's. */
  lemma MagnitudeWithExponent(a: string, mark: char, x: string)
    requires |a| > 0 && AllDigits(a) && IsExponentMark(mark)
    ensures ParseMagnitude(a + [mark] + x) ==
              if ParseUnsigned(a).None? || ParseExponent(x).None? then None
              else Some(Scale(ParseUnsigned(a).value, ParseExponent(x).value))
  {
    var s := a + [mark] + x;
    ExponentAfterDigits(a, mark, x);
    assert s[..|a|] == a && s[|a| + 1..] == x;
  }

  /** Text that starts with a digit and ends without white space is read
      as a magnitude, with no trimming and no sign. */
  lemma UnsignedText(s: string)
    requires |s| > 0 && IsDigit(s[0]) && !IsSpace(s[|s| - 1])
    ensures ParseNumber(s) == ParseMagnitude(s)
  {
    TrimUnchanged(s);
  }

  /** A digit string, an exponent mark and an exponent read as the digits'
      value scaled by the exponent. */
  lemma ParseWithExponent(a: string, mark: char, x: string)
    requires |a| > 0 && AllDigits(a) && IsExponentMark(mark)
    requires |x| > 0 && !IsSpace(x[|x| - 1])
    ensures ParseExponent(x).None? ==> ParseNumber(a + [mark] + x) == None
    ensures ParseExponent(x).Some? ==> ParseNumber(a + [mark] + x) == Some(Scale(DigitsValue(a) as real, ParseExponent(x).value))
  {
    var s := a + [mark] + x;
    assert IsDigit(a[0]) && s[0] == a[0] && s[|s| - 1] == x[|x| - 1];
    UnsignedText(s);
    MagnitudeWithExponent(a, mark, x);
    UnsignedDigits(a);
  }

  /** A digit string read as an unsigned decimal. */
  lemma UnsignedDigits(a: string)
    requires |a| > 0 && AllDigits(a)
    ensures ParseUnsigned(a) == Some(DigitsValue(a) as real)
  {
    DigitsHaveNoMarks(a);
  }

  /** A digit string read as an exponent. */
  lemma ExponentDigits(b: string)
    requires |b| > 0 && AllDigits(b)
    ensures ParseExponent(b) == Some(DigitsValue(b) as int)
  {
    assert IsDigit(b[0]);
  }

  /** A minus sign and a digit string read as a negative exponent. */
  lemma NegativeExponentDigits(b: string, x: string)
    requires |b| > 0 && AllDigits(b) && x == ['-'] + b
    ensures |x| > 0 && !IsSpace(x[|x| - 1])
    ensures ParseExponent(x) == Some(-(DigitsValue(b) as int))
  {
    assert x[1..] == b;
    assert x[|x| - 1] == b[|b| - 1] && IsDigit(b[|b| - 1]);
  }

  /** Digits, an exponent mark and exponent digits read as the first digits'
      value scaled up by ten to the power the second give. */
  lemma ParseDigitsExponent(a: string, mark: char, b: string)
    requires |a| > 0 && AllDigits(a) && IsExponentMark(mark)
    requires |b| > 0 && AllDigits(b)
    ensures ParseNumber(a + [mark] + b) == Some(Scale(DigitsValue(a) as real, DigitsValue(b)))
  {
    ExponentDigits(b);
    assert IsDigit(b[|b| - 1]);
    ParseWithExponent(a, mark, b);
  }

  /** With a minus sign before the exponent digits the value is scaled down
      instead. */
  lemma ParseDigitsNegativeExponent(a: string, mark: char, b: string)
    requires |a| > 0 && AllDigits(a) && IsExponentMark(mark)
    requires |b| > 0 && AllDigits(b)
    ensures ParseNumber(a + [mark] + (['-'] + b)) == Some(Scale(DigitsValue(a) as real, -(DigitsValue(b) as int)))
  {
    var nb := ['-'] + b;
    NegativeExponentDigits(b, nb);
    ParseWithExponent(a, mark, nb);
  }

  /** White space before or after a text does not change its reading. */
  lemma SurroundingSpaceIgnored(s: string, ch: char)
    requires IsSpace(ch)
    ensures ParseNumber([ch] + s) == ParseNumber(s)
    ensures ParseNumber(s + [ch]) == ParseNumber(s)
  {
    assert (s + [ch])[..|s|] == s;
    assert TrimEnd(s + [ch]) == TrimEnd(s);
    TrimEndPrepend(s, ch);
  }

  lemma {:induction false} TrimEndPrepend(s: string, ch: char)
    requires IsSpace(ch)
    ensures TrimStart(TrimEnd([ch] + s)) == TrimStart(TrimEnd(s))
    decreases |s|
  {
    var t := [ch] + s;
    if |s| > 0 && IsSpace(s[|s| - 1]) {
      assert t[..|t| - 1] == [ch] + s[..|s| - 1];
      TrimEndPrepend(s[..|s| - 1], ch);
    } else if |s| > 0 {
      assert TrimEnd(t) == t;
      assert t[1..] == s;
    }
  }

  /** Whatever the sign-free part reads consists of number characters only. */
  lemma MagnitudeTextIsNumeric(u: string)
    requires ParseMagnitude(u).Some?
    ensures forall i :: 0 <= i < |u| ==> NumberChar(u[i])
  {
    match ExponentAt(u)
    case None =>
      UnsignedTextIsNumeric(u);
    case Some(e) =>
      UnsignedTextIsNumeric(u[..e]);
      var x := u[e + 1..];
      assert ParseExponent(x).Some?;
      forall i | 0 <= i < |u|
        ensures NumberChar(u[i])
      {
        if i < e {
          assert u[i] == u[..e][i];
        } else if i > e {
          assert u[i] == x[i - e - 1];
          if i - e - 1 > 0 || !(x[0] == '-' || x[0] == '+') {
            var d := if x[0] == '-' || x[0] == '+' then x[1..] else x;
            var off := |x| - |d|;
            assert x[i - e - 1] == d[i - e - 1 - off];
          }
        }
      }
  }

  /** Whatever parses consists of number characters only. */
  lemma ParsedTextIsNumeric(s: string)
    requires ParseNumber(s).Some?
    ensures forall i :: 0 <= i < |s| ==> NumberChar(s[i])
  {
    var t := Trim(s);
    var u := if |t| > 0 && (t[0] == '-' || t[0] == '+') then t[1..] else t;
    assert ParseMagnitude(u).Some?;
    MagnitudeTextIsNumeric(u);
    forall i | 0 <= i < |s|
      ensures NumberChar(s[i])
    {
      if !IsSpace(s[i]) {
        TrimKeepsRest(s, i);
        var j :| 0 <= j < |t| && t[j] == s[i];
        if |t| > 0 && (t[0] == '-' || t[0] == '+') && j > 0 {
          assert t[j] == u[j - 1];
        }
      }
    }
  }

  lemma UnsignedTextIsNumeric(u: string)
    requires ParseUnsigned(u).Some?
    ensures forall i :: 0 <= i < |u| ==> NumberChar(u[i])
  {
    match Strings.IndexOf(u, '.')
    case None =>
      assert AllDigits(u);
    case Some(d) =>
      forall i | 0 <= i < |u|
        ensures NumberChar(u[i])
      {
        if i < d {
          assert u[i] == u[..d][i];
        } else if i > d {
          assert u[i] == u[d + 1..][i - d - 1];
        }
      }
  }

  /** Text with a character that cannot belong to a number (a letter other
      than an exponent mark, for instance) coerces to missing; "Indicator
      Name" is such a label. */
  lemma NonNumericTextIsMissing(s: string, i: nat)
    requires i < |s| && !NumberChar(s[i])
    ensures ParseNumber(s) == None
  {
    if ParseNumber(s).Some? {
      ParsedTextIsNumeric(s);
    }
  }

  /** The World Bank missing-value marker ".." is not a number either. */
  lemma DotsAreNotANumber()
    ensures ParseNumber("..") == None
  {
    TrimUnchanged("..");
    assert ExponentAt("..") == None by {
      assert !IsExponentMark('.');
    }
    assert Strings.IndexOf("..", '.') == Some(0);
  }
}
