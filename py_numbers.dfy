/**
 * Python's `int(s)` and `float(s)` conversions of form text, as the rating
 * endpoint uses them to read `movie_id` and `rating` (backend/app.py:159-163).
 * The model covers ASCII text: surrounding whitespace, an optional sign,
 * decimal digits, a fraction and an exponent for `float`, and the words
 * `inf`, `infinity` and `nan` in any letter case.
 */
module PyNumbers {
  import opened Wrappers

  /**
   * The whitespace `int()` and `float()` skip around ASCII text: space and
   * \t \n \v \f \r. The separators 0x1C-0x1F, which `str.isspace` accepts,
   * are not skipped, and text carrying them is refused.
   */
  predicate IsSpace(c: char) {
    c == ' ' || 9 <= c as int <= 13
  }

  /** Drops leading whitespace. */
  function StripLeft(s: string): (r: string)
    ensures |r| <= |s| && r == s[|s| - |r|..]
    ensures forall i :: 0 <= i < |s| - |r| ==> IsSpace(s[i])
    ensures r == [] || !IsSpace(r[0])
  {
    if s != [] && IsSpace(s[0]) then StripLeft(s[1..]) else s
  }

  /** Drops trailing whitespace. */
  function StripRight(s: string): (r: string)
    ensures |r| <= |s| && r == s[..|r|]
    ensures forall i :: |r| <= i < |s| ==> IsSpace(s[i])
    ensures r == [] || !IsSpace(r[|r| - 1])
  {
    if s != [] && IsSpace(s[|s| - 1]) then StripRight(s[..|s| - 1]) else s
  }

  /** The whitespace both conversions skip, removed from both ends. */
  function Strip(s: string): string {
    StripRight(StripLeft(s))
  }

  predicate IsDigit(c: char) {
    '0' <= c <= '9'
  }

  predicate AllDigits(s: string) {
    forall i :: 0 <= i < |s| ==> IsDigit(s[i])
  }

  function DigitValue(c: char): (d: nat)
    requires IsDigit(c)
    ensures d < 10
  {
    c as int - '0' as int
  }

  /** The value of a string of decimal digits, most significant first. */
  function DigitsValue(s: string): nat
    requires AllDigits(s)
  {
    if s == [] then 0 else 10 * DigitsValue(s[..|s| - 1]) + DigitValue(s[|s| - 1])
  }

  function Pow10(n: nat): (p: nat)
    ensures p >= 1
  {
    if n == 0 then 1 else 10 * Pow10(n - 1)
  }

  /** An optional sign followed by at least one digit, nothing else. */
  function SignedDigits(s: string): Option<int> {
    if s != [] && (s[0] == '+' || s[0] == '-') then
      var ds := s[1..];
      if ds != [] && AllDigits(ds) then
        Some(if s[0] == '-' then -(DigitsValue(ds) as int) else DigitsValue(ds) as int)
      else None
    else if s != [] && AllDigits(s) then Some(DigitsValue(s) as int)
    else None
  }

  /** Python's `int(s)`: `None` stands for the ValueError it raises. */
  function ParseInt(s: string): Option<int> {
    SignedDigits(Strip(s))
  }

  /** What Python's `float(s)` returns: a finite value, an infinity or NaN. */
  datatype PyFloat = Finite(value: real) | Infinite(negative: bool) | NaN

  function LowerAscii(c: char): char {
    if 'A' <= c <= 'Z' then (c as int + 32) as char else c
  }

  predicate EqualsIgnoreCase(s: string, word: string) {
    |s| == |word| && forall i :: 0 <= i < |s| ==> LowerAscii(s[i]) == LowerAscii(word[i])
  }

  /** The index of the first character of `s` that is in `cs`, or `|s|` when there is none. */
  function FirstIn(s: string, cs: set<char>): (k: nat)
    ensures k <= |s|
    ensures k < |s| ==> s[k] in cs
    ensures forall i :: 0 <= i < k ==> s[i] !in cs
  {
    if s == [] || s[0] in cs then 0 else 1 + FirstIn(s[1..], cs)
  }

  /** Digits with at most one decimal point and at least one digit: `12`, `1.5`, `1.`, `.5`. */
  function ParseMantissa(s: string): Option<real> {
    var d := FirstIn(s, {'.'});
    if d == |s| then
      if s != [] && AllDigits(s) then Some(DigitsValue(s) as real) else None
    else
      var whole, frac := s[..d], s[d + 1..];
      if (whole != [] || frac != []) && AllDigits(whole) && AllDigits(frac) then
        Some(PointValue(whole, frac))
      else None
  }

  /** The number written as the digits `whole`, a point, and the digits `frac`. */
  function PointValue(whole: string, frac: string): real
    requires AllDigits(whole) && AllDigits(frac)
  {
    DigitsValue(whole) as real + DigitsValue(frac) as real / Pow10(|frac|) as real
  }

  /** A mantissa with an optional exponent `e`/`E` and a signed, non-empty digit string. */
  function ParseDecimal(s: string): Option<real> {
    var k := FirstIn(s, {'e', 'E'});
    match ParseMantissa(s[..k])
    case None => None
    case Some(mant) =>
      if k == |s| then Some(mant)
      else
        match SignedDigits(s[k + 1..])
        case None => None
        case Some(e) =>
          Some(if e >= 0 then mant * Pow10(e) as real else mant / Pow10(-e) as real)
  }

  /** Python's `float(s)`: `None` stands for the ValueError it raises. */
  function ParseFloat(s: string): Option<PyFloat> {
    ParseFloatStripped(Strip(s))
  }

  /** `float` once the surrounding whitespace is gone: an optional sign, then the unsigned text. */
  function ParseFloatStripped(t: string): Option<PyFloat> {
    if t != [] && t[0] == '-' then Negate(ParseUnsigned(t[1..]))
    else if t != [] && t[0] == '+' then ParseUnsigned(t[1..])
    else ParseUnsigned(t)
  }

  /** A number, `inf`, `infinity` or `nan`, in any letter case. */
  function ParseUnsigned(body: string): Option<PyFloat> {
    if EqualsIgnoreCase(body, "inf") || EqualsIgnoreCase(body, "infinity") then Some(Infinite(false))
    else if EqualsIgnoreCase(body, "nan") then Some(NaN)
    else
      match ParseDecimal(body)
      case None => None
      case Some(x) => Some(Finite(x))
  }

  /** The effect of a leading minus: NaN stays NaN. */
  function Negate(f: Option<PyFloat>): Option<PyFloat> {
    match f
    case Some(Finite(x)) => Some(Finite(-x))
    case Some(Infinite(neg)) => Some(Infinite(!neg))
    case _ => f
  }

  /** The decimal text of a natural number, as Python's `str(n)` writes it. */
  function ShowNat(n: nat): string {
    if n < 10 then ['0' + n as char] else ShowNat(n / 10) + ['0' + (n % 10) as char]
  }

  /** The decimal text of an integer, as Python's `str(n)` writes it. */
  function ShowInt(n: int): string {
    if n < 0 then "-" + ShowNat(-n) else ShowNat(n)
  }

  lemma {:induction false} ShowNatDigits(n: nat)
    ensures ShowNat(n) != [] && AllDigits(ShowNat(n))
    ensures DigitsValue(ShowNat(n)) == n
  {
    var s := ShowNat(n);
    if n >= 10 {
      ShowNatDigits(n / 10);
      assert s[..|s| - 1] == ShowNat(n / 10);
    }
  }

  /** Text written by `str` is unchanged by `strip`. */
  lemma ShowIntStripped(n: int)
    ensures Strip(ShowInt(n)) == ShowInt(n)
  {
    var s := ShowInt(n);
    ShowNatDigits(if n < 0 then -n else n);
    assert !IsSpace(s[0]);
    assert !IsSpace(s[|s| - 1]);
  }

  /** `int(str(n)) == n`. */
  lemma ParseIntShowInt(n: int)
    ensures ParseInt(ShowInt(n)) == Some(n)
  {
    ShowIntStripped(n);
    var s := ShowInt(n);
    if n < 0 {
      ShowNatDigits(-n);
      assert s[1..] == ShowNat(-n);
    } else {
      ShowNatDigits(n);
    }
  }

  predicate AllSpace(s: string) {
    forall i :: 0 <= i < |s| ==> IsSpace(s[i])
  }

  /** `lstrip` removes the whitespace before a word and nothing of the word. */
  lemma StripLeftPadded(pre: string, w: string)
    requires AllSpace(pre) && w != [] && !IsSpace(w[0])
    ensures StripLeft(pre + w) == w
  {
    var s := pre + w;
    var l := StripLeft(s);
    assert s[|pre|] == w[0];
    assert |l| == |w|;
    assert s[|pre|..] == w;
  }

  /** `rstrip` removes the whitespace after a word and nothing of the word. */
  lemma StripRightPadded(w: string, post: string)
    requires AllSpace(post) && w != [] && !IsSpace(w[|w| - 1])
    ensures StripRight(w + post) == w
  {
    var s := w + post;
    assert s[|w| - 1] == w[|w| - 1];
    assert |StripRight(s)| == |w|;
    assert s[..|w|] == w;
  }

  /** `strip` removes the whitespace around a word and nothing of the word itself. */
  lemma StripPadded(pre: string, t: string, post: string)
    requires AllSpace(pre) && AllSpace(post)
    requires t != [] && !IsSpace(t[0]) && !IsSpace(t[|t| - 1])
    ensures Strip(pre + t + post) == t
  {
    assert pre + t + post == pre + (t + post);
    StripLeftPadded(pre, t + post);
    StripRightPadded(t, post);
  }

  /** `int(" 42\n") == 42`: the text `str(n)` with whitespace around it still reads as `n`. */
  lemma ParseIntPadded(pre: string, n: int, post: string)
    requires AllSpace(pre) && AllSpace(post)
    ensures ParseInt(pre + ShowInt(n) + post) == Some(n)
  {
    var s := ShowInt(n);
    ShowNatDigits(if n < 0 then -n else n);
    assert !IsSpace(s[0]) && !IsSpace(s[|s| - 1]);
    StripPadded(pre, s, post);
    ParseIntShowInt(n);
    ShowIntStripped(n);
  }

  /** A plain digit string reads as its integer value under `float`'s decimal grammar. */
  lemma DigitsParseDecimal(d: string)
    requires d != [] && AllDigits(d)
    ensures ParseDecimal(d) == Some(DigitsValue(d) as real)
    ensures !EqualsIgnoreCase(d, "inf") && !EqualsIgnoreCase(d, "infinity") && !EqualsIgnoreCase(d, "nan")
  {
    assert LowerAscii(d[0]) == d[0];
    assert FirstIn(d, {'e', 'E'}) == |d|;
    assert d[..|d|] == d;
    assert FirstIn(d, {'.'}) == |d|;
  }

  /** `float(str(n)) == n` for an integer `n`. */
  lemma ParseFloatShowInt(n: int)
    ensures ParseFloat(ShowInt(n)) == Some(Finite(n as real))
  {
    ShowIntStripped(n);
    var m: nat := if n < 0 then -n else n;
    ShowNatDigits(m);
    var body := ShowNat(m);
    DigitsParseDecimal(body);
    assert ParseUnsigned(body) == Some(Finite(DigitsValue(body) as real));
    if n < 0 {
      var t := ShowInt(n);
      assert t[0] == '-' && t[1..] == body;
    } else {
      assert IsDigit(body[0]);
    }
  }

  /** A digit string of length n is below 10^n. */
  lemma {:induction false} DigitsValueBound(s: string)
    requires AllDigits(s)
    ensures DigitsValue(s) < Pow10(|s|)
  {
    if s != [] {
      var init := s[..|s| - 1];
      DigitsValueBound(init);
      assert DigitsValue(s) == 10 * DigitsValue(init) + DigitValue(s[|s| - 1]);
      assert DigitsValue(init) + 1 <= Pow10(|init|);
      assert 10 * DigitsValue(init) + 10 <= 10 * Pow10(|init|);
    }
  }

  /** Text with no whitespace at either end is left alone by the stripping. */
  lemma StripWord(t: string)
    requires t != [] && !IsSpace(t[0]) && !IsSpace(t[|t| - 1])
    ensures Strip(t) == t
  {
    assert StripLeft(t) == t;
  }

  /** Text that starts with a digit and ends without whitespace is read by the decimal grammar alone. */
  lemma DigitLed(t: string)
    requires t != [] && IsDigit(t[0]) && !IsSpace(t[|t| - 1])
    ensures ParseFloat(t) == ParseUnsigned(t)
    ensures !EqualsIgnoreCase(t, "inf") && !EqualsIgnoreCase(t, "infinity") && !EqualsIgnoreCase(t, "nan")
  {
    StripWord(t);
    assert LowerAscii(t[0]) == t[0];
  }

  /** Without an `e` or `E` the decimal grammar reads the mantissa alone. */
  lemma NoExponent(t: string, v: real)
    requires forall i :: 0 <= i < |t| ==> t[i] != 'e' && t[i] != 'E'
    requires ParseMantissa(t) == Some(v)
    ensures ParseDecimal(t) == Some(v)
  {
    assert FirstIn(t, {'e', 'E'}) == |t|;
    assert t[..|t|] == t;
  }

  /** A mantissa whose first point is at `k`: the digits before it, plus the digits after it scaled down. */
  lemma PointAt(t: string, k: nat)
    requires k < |t| && t[k] == '.' && FirstIn(t, {'.'}) == k
    requires k > 0 && AllDigits(t[..k]) && AllDigits(t[k + 1..])
    ensures ParseMantissa(t) ==
              Some(PointValue(t[..k], t[k + 1..]))
  {
  }

  /** Digits, a point at `k` and more digits: the point is the first one and no exponent mark occurs. */
  lemma PointMarks(t: string, k: nat)
    requires 0 < k < |t| && t[k] == '.'
    requires AllDigits(t[..k]) && AllDigits(t[k + 1..])
    ensures FirstIn(t, {'.'}) == k
    ensures forall i :: 0 <= i < |t| ==> t[i] != 'e' && t[i] != 'E'
  {
    var whole, frac := t[..k], t[k + 1..];
    forall i | 0 <= i < k ensures t[i] !in {'.'} && t[i] != 'e' && t[i] != 'E' {
      assert t[i] == whole[i];
    }
    forall i | k < i < |t| ensures t[i] != 'e' && t[i] != 'E' {
      assert t[i] == frac[i - k - 1];
    }
    assert FirstIn(t, {'.'}) == k;
  }

  /** Digits, a point at `k` and more digits, under the decimal grammar. */
  lemma PointDecimal(t: string, k: nat)
    requires 0 < k < |t| && t[k] == '.'
    requires AllDigits(t[..k]) && AllDigits(t[k + 1..])
    ensures ParseDecimal(t) ==
              Some(PointValue(t[..k], t[k + 1..]))
  {
    PointMarks(t, k);
    PointAt(t, k);
    var v := PointValue(t[..k], t[k + 1..]);
    assert ParseMantissa(t) == Some(v);
    NoExponent(t, v);
  }

  /**
   * `float("4.5")`, `float("03.75")`: digits, a point at `k` and more digits
   * read as the whole part plus the fraction's digits over 10^(their count).
   */
  lemma FractionParse(t: string, k: nat)
    requires 0 < k < |t| - 1 && t[k] == '.'
    requires AllDigits(t[..k]) && AllDigits(t[k + 1..])
    ensures ParseFloat(t) ==
              Some(Finite(PointValue(t[..k], t[k + 1..])))
  {
    assert t[0] == t[..k][0] && t[|t| - 1] == t[k + 1..][|t| - k - 2];
    PointDecimal(t, k);
    DigitLed(t);
  }

  /** A fraction's digits add less than one to the whole part. */
  lemma FractionBetween(whole: string, frac: string)
    requires AllDigits(whole) && AllDigits(frac)
    ensures DigitsValue(whole) as real <= PointValue(whole, frac) < DigitsValue(whole) as real + 1.0
  {
    DigitsValueBound(frac);
    QuotientBelowOne(DigitsValue(frac) as real, Pow10(|frac|) as real);
  }

  lemma QuotientBelowOne(f: real, p: real)
    requires 0.0 <= f < p
    ensures 0.0 <= f / p < 1.0
  {
    var q := f / p;
    assert q * p == f;
  }

  /** The empty string is not a number; neither is one made only of whitespace. */
  lemma EmptyNotFloat()
    ensures ParseFloat("") == None
  {
    assert Strip("") == "";
    assert FirstIn("", {'e', 'E'}) == 0;
    assert FirstIn("", {'.'}) == 0;
    assert ParseMantissa("") == None;
    assert ParseUnsigned("") == None;
  }

  predicate IsSign(sign: string) {
    sign == "" || sign == "+" || sign == "-"
  }

  /** The words `float` reads as an infinity or NaN, in any letter case. */
  predicate SpecialWord(word: string) {
    EqualsIgnoreCase(word, "inf") || EqualsIgnoreCase(word, "infinity") || EqualsIgnoreCase(word, "nan")
  }

  /** A special word is read as an infinity or NaN. */
  lemma SpecialUnsigned(word: string)
    requires SpecialWord(word)
    ensures ParseUnsigned(word) == if EqualsIgnoreCase(word, "nan") then Some(NaN) else Some(Infinite(false))
  {
    if EqualsIgnoreCase(word, "nan") {
      assert LowerAscii(word[0]) == 'n';
      assert !EqualsIgnoreCase(word, "inf") && !EqualsIgnoreCase(word, "infinity");
    }
  }

  /** A sign and a special word carry no whitespace to strip. */
  lemma SpecialStripped(sign: string, word: string)
    requires IsSign(sign) && SpecialWord(word)
    ensures Strip(sign + word) == sign + word
    ensures word != [] && word[0] != '+' && word[0] != '-'
  {
    var t := sign + word;
    var first := LowerAscii(word[0]);
    var last := LowerAscii(word[|word| - 1]);
    assert first == 'i' || first == 'n';
    assert last == 'f' || last == 'y' || last == 'n';
    assert t[|t| - 1] == word[|word| - 1];
    assert t[0] == if sign == "" then word[0] else sign[0];
    assert "" + t + "" == t;
    StripPadded("", t, "");
  }

  /** `float("-inf")`, `float("+Infinity")`, `float("NaN")`: a sign and a special word give an infinity or NaN. */
  lemma SpecialParse(sign: string, word: string)
    requires IsSign(sign) && SpecialWord(word)
    ensures ParseFloat(sign + word) ==
              if EqualsIgnoreCase(word, "nan") then Some(NaN) else Some(Infinite(sign == "-"))
  {
    var t := sign + word;
    SpecialStripped(sign, word);
    SpecialUnsigned(word);
    if sign == "" {
      assert t == word;
    } else {
      assert t[0] == sign[0] && t[1..] == word;
    }
  }
}
