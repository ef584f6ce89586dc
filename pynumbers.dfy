/** CPython's `float(str)` and `int(str)`, with exact values in place of
    binary floating point. */
module PyNumbers {
  import opened Wrappers
  import opened PyStr

  /** A Python float, kept exact: finite values are reals, and the three
      special values `inf`, `-inf` and `nan` are their own cases. */
  datatype Float = Finite(value: real) | PosInf | NegInf | NaN

  /** The whitespace `float()` and `int()` skip around a literal: CPython maps
      non-ASCII whitespace to a space and then skips ASCII whitespace only, so
      the separators U+001C..U+001F, which `str.isspace()` accepts, are not
      skipped. */
  predicate IsNumericSpace(c: char) { IsSpace(c) && !('\U{1c}' <= c <= '\U{1f}') }

  /** CPython accepts an underscore in a numeric literal only directly between
      two digits. */
  predicate UnderscoresBetweenDigits(s: string) {
    forall i :: 0 <= i < |s| && s[i] == '_' ==> 0 < i < |s| - 1 && IsDigit(s[i - 1]) && IsDigit(s[i + 1])
  }

  function DigitValue(c: char): nat { if IsDigit(c) then c as int - '0' as int else 0 }

  /** The decimal value of a digit string. */
  function DigitsValue(s: string): nat {
    if s == [] then 0 else DigitsValue(s[..|s| - 1]) * 10 + DigitValue(s[|s| - 1])
  }

  function Pow10(n: nat): (r: real)
    ensures r >= 1.0
  {
    if n == 0 then 1.0 else 10.0 * Pow10(n - 1)
  }

  /** `10 ** e` for any integer exponent. */
  function Scale(e: int): (r: real)
    ensures r > 0.0
  {
    if e >= 0 then Pow10(e) else 1.0 / Pow10(-e)
  }

  /** An optional leading sign: whether it is `-`, and what follows it. */
  function SplitSign(t: string): (bool, string) {
    if t != [] && (t[0] == '+' || t[0] == '-') then (t[0] == '-', t[1..]) else (false, t)
  }

  predicate IsExponentMark(c: char) { c == 'e' || c == 'E' }

  predicate IsPoint(c: char) { c == '.' }

  /** The exponent of a literal: an optional sign and at least one digit. */
  function ExponentValue(s: string): Option<int> {
    var (negative, digits) := SplitSign(s);
    if digits != [] && AllDigits(digits) then
      Some(if negative then -(DigitsValue(digits) as int) else DigitsValue(digits) as int)
    else None
  }

  /** An unsigned decimal literal: digits with at most one point and at least
      one digit, then optionally `e` or `E` and an exponent. */
  function DecimalValue(b: string): Option<real> {
    var e := IndexWhere(b, IsExponentMark);
    var exponent := if e < |b| then ExponentValue(b[e + 1..]) else Some(0);
    var mantissa := b[..e];
    var d := IndexWhere(mantissa, IsPoint);
    var intDigits := mantissa[..d];
    var fracDigits := if d < |mantissa| then mantissa[d + 1..] else [];
    if exponent.Some? && AllDigits(intDigits) && AllDigits(fracDigits) && |intDigits| + |fracDigits| > 0 then
      Some((DigitsValue(intDigits) as real + DigitsValue(fracDigits) as real / Pow10(|fracDigits|)) * Scale(exponent.value))
    else None
  }

  /** A whole literal once the whitespace is gone: a sign, then `inf`,
      `infinity` or `nan` in any ASCII case, or a decimal literal. */
  function FloatLiteral(t: string): Option<Float> {
    var (negative, body) := SplitSign(t);
    var word := LowerAscii(body);
    if word == "inf" || word == "infinity" then Some(if negative then NegInf else PosInf)
    else if word == "nan" then Some(NaN)
    else
      match DecimalValue(body)
      case None => None
      case Some(v) => Some(Finite(if negative then -v else v))
  }

  /** `float(s)`; `None` is the `ValueError` it raises. The underscores are
      checked on the whole string, then removed, then the whitespace on both
      sides is skipped. */
  function ParseFloat(s: string): Option<Float> {
    if UnderscoresBetweenDigits(s) then FloatLiteral(Trim(RemoveChar(s, '_'), IsNumericSpace)) else None
  }

  /** `int(s)` in base 10; `None` is the `ValueError` it raises: whitespace,
      an optional sign, then digits with single underscores between them. */
  function ParseInt(s: string): Option<int> {
    var (negative, body) := SplitSign(Trim(s, IsNumericSpace));
    if body != [] && (forall i :: 0 <= i < |body| ==> IsDigit(body[i]) || body[i] == '_') && UnderscoresBetweenDigits(body) then
      var n: int := DigitsValue(RemoveChar(body, '_'));
      Some(if negative then -n else n)
    else None
  }

  /** `x + q` for a float `x` and a finite `q`. */
  function Plus(x: Float, q: real): Float {
    match x
    case Finite(v) => Finite(v + q)
    case _ => x
  }

  /** Python's `x > bound`: false whenever `x` is `nan`. */
  predicate Exceeds(x: Float, bound: real) {
    match x
    case Finite(v) => v > bound
    case PosInf => true
    case NegInf => false
    case NaN => false
  }

  lemma TrimDigits(d: string, p: char -> bool)
    requires d != [] && AllDigits(d)
    requires forall c :: IsDigit(c) ==> !p(c)
    ensures Trim(d, p) == d
  {
    TrimUntouched(d, p);
  }

  lemma DecimalOfDigits(d: string)
    requires d != [] && AllDigits(d)
    ensures DecimalValue(d) == Some(DigitsValue(d) as real)
  {
    assert IndexWhere(d, IsExponentMark) == |d|;
    assert d[..|d|] == d;
    assert IndexWhere(d, IsPoint) == |d|;
  }

  lemma LiteralOfDigits(d: string)
    requires d != [] && AllDigits(d)
    ensures FloatLiteral(d) == Some(Finite(DigitsValue(d) as real))
  {
    assert SplitSign(d) == (false, d);
    assert LowerAscii(d)[0] == d[0];
    DecimalOfDigits(d);
  }

  /** A plain digit string is the float of its decimal value. */
  lemma FloatOfDigits(d: string)
    requires d != [] && AllDigits(d)
    ensures ParseFloat(d) == Some(Finite(DigitsValue(d) as real))
  {
    assert '_' !in d;
    RemoveCharAbsent(d, '_');
    TrimDigits(d, IsNumericSpace);
    LiteralOfDigits(d);
  }

  /** A plain digit string is the int of its decimal value. */
  lemma IntOfDigits(d: string)
    requires d != [] && AllDigits(d)
    ensures ParseInt(d).Some? && ParseInt(d).value == DigitsValue(d)
  {
    TrimDigits(d, IsNumericSpace);
    assert SplitSign(d) == (false, d);
    assert '_' !in d;
    RemoveCharAbsent(d, '_');
  }

  /** `int()` refuses any string holding a decimal point. */
  lemma IntRejectsPoint(s: string)
    requires '.' in s
    ensures ParseInt(s) == None
  {
    var t := Trim(s, IsNumericSpace);
    TrimKeeps(s, IsNumericSpace, '.');
    var (negative, body) := SplitSign(t);
    if t[0] == '+' || t[0] == '-' {
      var k :| 0 <= k < |t| && t[k] == '.';
      assert body[k - 1] == '.';
    }
    assert '.' in body;
  }

  /** Inserting an underscore between two digits keeps the underscore check's verdict. */
  lemma UnderscoreCheckAcrossJoin(a: string, b: string)
    requires a != [] && IsDigit(a[|a| - 1]) && b != [] && IsDigit(b[0])
    ensures UnderscoresBetweenDigits(a + "_" + b) == UnderscoresBetweenDigits(a + b)
  {
    var s1, s2 := a + "_" + b, a + b;
    var n := |a|;
    assert forall i :: 0 <= i < n ==> s1[i] == a[i] && s2[i] == a[i];
    assert s1[n] == '_';
    assert forall i :: n < i < |s1| ==> s1[i] == b[i - n - 1] && s2[i - 1] == b[i - n - 1];
    if UnderscoresBetweenDigits(s2) {
      forall i | 0 <= i < |s1| && s1[i] == '_'
        ensures 0 < i < |s1| - 1 && IsDigit(s1[i - 1]) && IsDigit(s1[i + 1])
      {
        if i < n {
          assert s2[i] == '_';
        } else if i > n {
          assert s2[i - 1] == '_';
        }
      }
    }
    if UnderscoresBetweenDigits(s1) {
      forall i | 0 <= i < |s2| && s2[i] == '_'
        ensures 0 < i < |s2| - 1 && IsDigit(s2[i - 1]) && IsDigit(s2[i + 1])
      {
        if i < n {
          assert s1[i] == '_' && i != n - 1;
          assert s2[i - 1] == s1[i - 1] && s2[i + 1] == s1[i + 1];
        } else {
          assert s2[i] == b[i - n] == s1[i + 1] && i != n;
          assert s2[i - 1] == b[i - n - 1] == s1[i];
          assert s2[i + 1] == b[i - n + 1] == s1[i + 2];
        }
      }
    }
  }

  /** An underscore between two digits is invisible to `float()`. */
  lemma UnderscoreBetweenDigitsIgnored(a: string, b: string)
    requires a != [] && IsDigit(a[|a| - 1]) && b != [] && IsDigit(b[0])
    ensures ParseFloat(a + "_" + b) == ParseFloat(a + b)
  {
    UnderscoreCheckAcrossJoin(a, b);
    RemoveCharConcat(a + "_", b, '_');
    RemoveCharConcat(a, "_", '_');
    RemoveCharConcat(a, b, '_');
    assert RemoveChar("_", '_') == [];
    assert RemoveChar(a + "_", '_') == RemoveChar(a, '_');
    assert RemoveChar(a + "_" + b, '_') == RemoveChar(a + b, '_');
  }

  /** An underscore between a digit string and a well-formed literal that
      starts with a digit keeps the underscores well placed. */
  lemma UnderscoreAfterDigits(a: string, b: string)
    requires a != [] && AllDigits(a) && b != [] && IsDigit(b[0]) && UnderscoresBetweenDigits(b)
    ensures UnderscoresBetweenDigits(a + "_" + b)
  {
    var s := a + "_" + b;
    forall i | 0 <= i < |s| && s[i] == '_'
      ensures 0 < i < |s| - 1 && IsDigit(s[i - 1]) && IsDigit(s[i + 1])
    {
      if i == |a| {
        assert s[i - 1] == a[|a| - 1] && s[i + 1] == b[0];
      } else if i > |a| {
        var j := i - |a| - 1;
        assert s[i] == b[j] && j != 0;
        assert s[i - 1] == b[j - 1] && s[i + 1] == b[j + 1];
      }
    }
  }

  /** Digit groups joined by underscores: well placed, and the digits alone
      once the underscores are gone. */
  lemma {:induction false} UnderscoreGroups(gs: seq<string>)
    requires |gs| > 0 && forall k :: 0 <= k < |gs| ==> gs[k] != [] && AllDigits(gs[k])
    ensures UnderscoresBetweenDigits(Join(gs, "_"))
    ensures RemoveChar(Join(gs, "_"), '_') == Concat(gs)
  {
    assert '_' !in gs[0];
    RemoveCharAbsent(gs[0], '_');
    if |gs| == 1 {
      assert Concat(gs) == gs[0] + [] == gs[0];
    } else {
      var rest := Join(gs[1..], "_");
      UnderscoreGroups(gs[1..]);
      JoinFirstChar(gs[1..], "_");
      UnderscoreAfterDigits(gs[0], rest);
      RemoveCharConcat(gs[0] + "_", rest, '_');
      RemoveCharConcat(gs[0], "_", '_');
      assert RemoveChar("_", '_') == [];
      assert gs[0] + [] == gs[0];
    }
  }

  /** `float()` reads digit groups joined by underscores as the number their
      digits spell. */
  lemma FloatOfUnderscoreGroups(gs: seq<string>)
    requires |gs| > 0 && forall k :: 0 <= k < |gs| ==> gs[k] != [] && AllDigits(gs[k])
    ensures ParseFloat(Join(gs, "_")) == Some(Finite(DigitsValue(Concat(gs)) as real))
  {
    UnderscoreGroups(gs);
    var d := Concat(gs);
    ConcatOfGroups(gs);
    TrimDigits(d, IsNumericSpace);
    LiteralOfDigits(d);
  }

  lemma {:induction false} ConcatOfGroups(gs: seq<string>)
    requires |gs| > 0 && forall k :: 0 <= k < |gs| ==> gs[k] != [] && AllDigits(gs[k])
    ensures Concat(gs) != [] && AllDigits(Concat(gs))
  {
    if |gs| > 1 {
      ConcatOfGroups(gs[1..]);
    }
    var c := Concat(gs);
    assert c == gs[0] + Concat(gs[1..]);
    forall i | 0 <= i < |c| ensures IsDigit(c[i]) {
      if i >= |gs[0]| { assert c[i] == Concat(gs[1..])[i - |gs[0]|]; }
    }
  }

  lemma LeadingUnderscoreRejected(s: string)
    requires s != [] && s[0] == '_'
    ensures ParseFloat(s) == None
  {
  }

  lemma TrailingUnderscoreRejected(s: string)
    requires s != [] && s[|s| - 1] == '_'
    ensures ParseFloat(s) == None
  {
  }

  lemma DoubledUnderscoreRejected(a: string, b: string)
    ensures ParseFloat(a + "__" + b) == None
  {
    var s := a + "__" + b;
    assert s[|a| + 1] == '_' && s[|a|] == '_';
  }

  /** Without underscores and whitespace, `float()` is the literal grammar alone. */
  lemma PlainFloat(s: string)
    requires s != [] && forall i :: 0 <= i < |s| ==> s[i] != '_' && !IsNumericSpace(s[i])
    ensures ParseFloat(s) == FloatLiteral(s)
  {
    assert '_' !in s;
    RemoveCharAbsent(s, '_');
    TrimUntouched(s, IsNumericSpace);
  }

  /** A string that lower-cases to a word of letters is made of letters. */
  lemma LettersOnly(s: string, word: string)
    requires LowerAscii(s) == word && forall i :: 0 <= i < |word| ==> 'a' <= word[i] <= 'z'
    ensures forall i :: 0 <= i < |s| ==> 'a' <= s[i] <= 'z' || 'A' <= s[i] <= 'Z'
  {
    forall i | 0 <= i < |s|
      ensures 'a' <= s[i] <= 'z' || 'A' <= s[i] <= 'Z'
    {
      assert LowerAscii(s)[i] == word[i];
    }
  }

  /** `float()` reads `nan`, `inf` and `infinity` in any letter case. */
  lemma FloatOfSpecialWord(s: string, word: string, x: Float)
    requires (word == "nan" && x == NaN) || ((word == "inf" || word == "infinity") && x == PosInf)
    requires LowerAscii(s) == word
    ensures ParseFloat(s).Some? && ParseFloat(s).value == x
  {
    SpecialWordLetters(word);
    LettersOnly(s, word);
    LettersArePlain(s);
    PlainFloat(s);
    SpecialLiteral(s, word, x);
  }

  /** Letters are neither underscores, whitespace nor signs. */
  lemma LettersArePlain(s: string)
    requires forall i :: 0 <= i < |s| ==> 'a' <= s[i] <= 'z' || 'A' <= s[i] <= 'Z'
    ensures forall i :: 0 <= i < |s| ==> s[i] != '_' && !IsNumericSpace(s[i]) && s[i] != '+' && s[i] != '-'
  {
  }

  lemma SpecialLiteral(s: string, word: string, x: Float)
    requires (word == "nan" && x == NaN) || ((word == "inf" || word == "infinity") && x == PosInf)
    requires LowerAscii(s) == word && s != [] && s[0] != '+' && s[0] != '-'
    ensures FloatLiteral(s) == Some(x)
  {
    assert SplitSign(s) == (false, s);
  }

  lemma SpecialWordLetters(word: string)
    requires word == "nan" || word == "inf" || word == "infinity"
    ensures forall i :: 0 <= i < |word| ==> 'a' <= word[i] <= 'z'
  {
  }
}
