/** The price check of the tracker's entry point: find the two parts of the
    displayed price, turn them into an amount, and decide whether to send the
    alert. Fetching the page and sending the email are not modelled. */
module Tracker {
  import opened Wrappers
  import opened PyStr
  import opened PyNumbers
  import opened Document

  /** The alert threshold, an integer in the configuration. */
  const TargetPrice: int := 4000

  /** The product name written into the alert. */
  const ProductName: string := "PS5"

  /** The product page linked from the alert. */
  const ProductPageUrl: string :=
    "https://www.amazon.com.br/PlayStation%C2%AE5-God-of-War-Ragnar%C3%B6k/dp/B0BLW5C5KN/"

  const WholeSelector: Selector := ByClass("a-price-whole")
  const FractionSelector: Selector := ByClass("a-price-fraction")

  /** What `send_email` is handed. */
  datatype Notification = Notification(productName: string, price: Float, link: string)

  /** `extract_price`: the unstripped text of the first element with class
      `a-price-whole` and of the first with class `a-price-fraction`, or
      nothing if either is missing. */
  function ExtractPrice(doc: Doc): (r: Option<(string, string)>)
    ensures r.None? <==> NoMatch(doc, WholeSelector) || NoMatch(doc, FractionSelector)
    ensures forall i, j :: IsFirstMatch(doc, WholeSelector, i) && IsFirstMatch(doc, FractionSelector, j) ==>
              r == Some((Text(doc[i]), Text(doc[j])))
  {
    match (Find(doc, WholeSelector), Find(doc, FractionSelector))
    case (Some(w), Some(f)) => Some((Text(w), Text(f)))
    case _ => None
  }

  predicate IsComma(c: char) { c == ',' }

  /** The whole part as `float()` receives it: trailing commas cut off, every
      `.` turned into `_`. */
  function CleanWhole(wholePart: string): (r: string)
    ensures |r| <= |wholePart|
    ensures forall i :: 0 <= i < |r| ==> r[i] == (if wholePart[i] == '.' then '_' else wholePart[i])
    ensures forall k :: |r| <= k < |wholePart| ==> wholePart[k] == ','
    ensures r == [] || wholePart[|r| - 1] != ','
    ensures '.' !in r
  {
    ReplaceChar(TrimEnd(wholePart, IsComma), '.', '_')
  }

  /** `format_price`: the float of the cleaned whole part plus a hundredth of
      the int of the fraction part. Either conversion can raise `ValueError`. */
  function FormatPrice(wholePart: string, decimalPart: string): (r: Result<Float, PyError>)
    ensures r.Failure? ==> r.error == ValueError
  {
    match ParseFloat(CleanWhole(wholePart))
    case None => Failure(ValueError)
    case Some(w) =>
      match ParseInt(decimalPart)
      case None => Failure(ValueError)
      case Some(d) => Success(Plus(w, d as real / 100.0))
  }

  /** `main` after the page is parsed: `Success(Some(n))` when the alert `n` is
      sent, `Success(None)` when the run ends quietly, `Failure(e)` when
      `format_price` raises `e`. */
  function Decide(doc: Doc): (r: Result<Option<Notification>, PyError>)
    ensures ExtractPrice(doc).None? ==> r == Success(None)
    ensures r.Success? && r.value.Some? ==>
              exists w, f :: ExtractPrice(doc) == Some((w, f)) && FormatPrice(w, f) == Success(r.value.value.price)
                           && !Exceeds(r.value.value.price, TargetPrice as real)
    ensures r.Success? && r.value.Some? ==> r.value.value.productName == ProductName && r.value.value.link == ProductPageUrl
    ensures ExtractPrice(doc).Some? ==>
              (r.Failure? <==> FormatPrice(ExtractPrice(doc).value.0, ExtractPrice(doc).value.1).Failure?)
    ensures r.Failure? ==> r.error == ValueError
  {
    match ExtractPrice(doc)
    case None => Success(None)
    case Some((w, f)) =>
      match FormatPrice(w, f)
      case Failure(e) => Failure(e)
      case Success(p) =>
        if Exceeds(p, TargetPrice as real) then Success(None)
        else Success(Some(Notification(ProductName, p, ProductPageUrl)))
  }

  // ---------------------------------------------------------------------------
  // The whole part

  /** Trailing commas never matter: one more is cut off like the others. */
  lemma TrailingCommaIgnored(w: string, f: string)
    ensures FormatPrice(w + ",", f) == FormatPrice(w, f)
  {
    assert TrailingRun(w + ",", IsComma) == 1 + TrailingRun(w, IsComma) by {
      assert (w + ",")[..|w + ","| - 1] == w;
    }
    assert TrimEnd(w + ",", IsComma) == TrimEnd(w, IsComma);
  }

  /** A `.` directly between two digits is a group separator: removing it
      leaves the amount as it was. */
  lemma GroupSeparatorIgnored(p: string, q: string, f: string)
    requires p != [] && IsDigit(p[|p| - 1]) && q != [] && IsDigit(q[0])
    ensures FormatPrice(p + "." + q, f) == FormatPrice(p + q, f)
  {
    var q' := TrimEnd(q, IsComma);
    TrimAfterDigit(p, q);
    ReplaceAroundPoint(p, q');
    var a, b := ReplaceChar(p, '.', '_'), ReplaceChar(q', '.', '_');
    UnderscoreBetweenDigitsIgnored(a, b);
  }

  /** `rstrip(',')` reaches neither the `.` nor the first digit after it. */
  lemma TrimAfterDigit(p: string, q: string)
    requires p != [] && IsDigit(p[|p| - 1]) && q != [] && IsDigit(q[0])
    ensures TrimEnd(p + "." + q, IsComma) == p + "." + TrimEnd(q, IsComma)
    ensures TrimEnd(p + q, IsComma) == p + TrimEnd(q, IsComma)
    ensures TrimEnd(q, IsComma) != [] && TrimEnd(q, IsComma)[0] == q[0]
  {
    TrimEndAppend(p + ".", q, IsComma);
    TrimEndAppend(p, q, IsComma);
    assert TrailingRun(q, IsComma) < |q|;
  }

  /** `replace('.', '_')` around the separator. */
  lemma ReplaceAroundPoint(p: string, q: string)
    ensures ReplaceChar(p + "." + q, '.', '_') == ReplaceChar(p, '.', '_') + "_" + ReplaceChar(q, '.', '_')
    ensures ReplaceChar(p + q, '.', '_') == ReplaceChar(p, '.', '_') + ReplaceChar(q, '.', '_')
  {
    ReplaceCharConcat(p + ".", q, '.', '_');
    ReplaceCharConcat(p, ".", '.', '_');
    ReplaceCharConcat(p, q, '.', '_');
    assert ReplaceChar(".", '.', '_') == "_";
  }

  /** A `.` at the start of the whole part makes `float()` raise. */
  lemma LeadingPointRejected(w: string, f: string)
    ensures FormatPrice("." + w, f) == Failure(ValueError)
  {
    TrimEndAppend(".", w, IsComma);
    assert CleanWhole("." + w)[0] == '_';
    LeadingUnderscoreRejected(CleanWhole("." + w));
  }

  /** A `.` at the end of the whole part, before any trailing commas, makes
      `float()` raise. */
  lemma TrailingPointRejected(w: string, commas: string, f: string)
    requires forall k :: 0 <= k < |commas| ==> commas[k] == ','
    ensures FormatPrice(w + "." + commas, f) == Failure(ValueError)
  {
    TrimEndAppend(w + ".", commas, IsComma);
    assert TrimEnd(commas, IsComma) == [];
    assert TrimEnd(w + "." + commas, IsComma) == w + ".";
    var c := CleanWhole(w + "." + commas);
    assert c[|c| - 1] == '_';
    TrailingUnderscoreRejected(c);
  }

  /** Two `.` in a row make `float()` raise. */
  lemma DoubledPointRejected(p: string, q: string, f: string)
    ensures FormatPrice(p + ".." + q, f) == Failure(ValueError)
  {
    var q' := TrimEnd(q, IsComma);
    assert TrimEnd(p + ".." + q, IsComma) == p + ".." + q' by {
      TrimEndAppend(p + "..", q, IsComma);
    }
    var a, b := ReplaceChar(p, '.', '_'), ReplaceChar(q', '.', '_');
    assert CleanWhole(p + ".." + q) == a + "__" + b by {
      ReplaceCharConcat(p + "..", q', '.', '_');
      ReplaceCharConcat(p, "..", '.', '_');
      assert ReplaceChar("..", '.', '_') == "__";
    }
    DoubledUnderscoreRejected(a, b);
  }

  /** A fraction part with a decimal point makes `int()` raise. */
  lemma PointInFractionRejected(w: string, f: string)
    requires '.' in f
    ensures FormatPrice(w, f) == Failure(ValueError)
  {
    IntRejectsPoint(f);
  }

  predicate IsDigitGroup(g: string) { g != [] && AllDigits(g) }

  /** The price as the page renders it: digit groups joined by `.`, then any
      number of trailing commas. Its amount is the number the digits spell
      without their separators, plus a hundredth of the fraction. */
  lemma GroupedWholePart(gs: seq<string>, commas: string, f: string)
    requires |gs| > 0 && forall k :: 0 <= k < |gs| ==> IsDigitGroup(gs[k])
    requires forall k :: 0 <= k < |commas| ==> commas[k] == ','
    requires ParseInt(f).Some?
    ensures FormatPrice(Join(gs, ".") + commas, f)
         == Success(Plus(Finite(DigitsValue(Concat(gs)) as real), ParseInt(f).value as real / 100.0))
  {
    CleanGroupedWhole(gs, commas);
    FloatOfUnderscoreGroups(gs);
  }

  lemma CleanGroupedWhole(gs: seq<string>, commas: string)
    requires |gs| > 0 && forall k :: 0 <= k < |gs| ==> IsDigitGroup(gs[k])
    requires forall k :: 0 <= k < |commas| ==> commas[k] == ','
    ensures CleanWhole(Join(gs, ".") + commas) == Join(gs, "_")
  {
    TrimGroupedWhole(gs, commas);
    assert forall k :: 0 <= k < |gs| ==> '.' !in gs[k];
    ReplaceInJoin(gs, '.', '_');
  }

  /** The trailing commas are all that `rstrip(',')` removes. */
  lemma TrimGroupedWhole(gs: seq<string>, commas: string)
    requires |gs| > 0 && forall k :: 0 <= k < |gs| ==> IsDigitGroup(gs[k])
    requires forall k :: 0 <= k < |commas| ==> commas[k] == ','
    ensures TrimEnd(Join(gs, ".") + commas, IsComma) == Join(gs, ".")
  {
    var whole := Join(gs, ".");
    JoinLastChar(gs, ".");
    TrimEndAppend(whole, commas, IsComma);
    assert TrimEnd(commas, IsComma) == [];
    assert whole + [] == whole;
  }

  // ---------------------------------------------------------------------------
  // Examples
  //
  // The example lemmas take their strings as parameters fixed by `requires`
  // rather than writing the literals in the `ensures`: this keeps the
  // verifier from evaluating the recursive string functions on literals.

  /** The two price elements as the product page renders them. */
  function PricedPage(whole: seq<string>, fraction: seq<string>): Doc {
    [ Element("span", None, ["a-price-whole"], whole),
      Element("span", None, ["a-price-fraction"], fraction) ]
  }

  lemma PricedPageParts(whole: seq<string>, fraction: seq<string>)
    ensures ExtractPrice(PricedPage(whole, fraction)) == Some((Concat(whole), Concat(fraction)))
  {
    var doc := PricedPage(whole, fraction);
    assert IsFirstMatch(doc, WholeSelector, 0);
    assert IsFirstMatch(doc, FractionSelector, 1);
  }

  /** The values of the short digit strings the examples use. */
  lemma SmallDigits()
    ensures DigitsValue("0") == 0 && DigitsValue("00") == 0 && DigitsValue("01") == 1
    ensures DigitsValue("5") == 5 && DigitsValue("12") == 12
  {
    assert "0"[..0] == "" && "00"[..1] == "0" && "01"[..1] == "0" && "5"[..0] == "";
    assert "12"[..1] == "1" && "1"[..0] == "";
  }

  lemma DigitsOf4000()
    ensures DigitsValue("4000") == 4000
  {
    assert "4000"[..3] == "400" && "400"[..2] == "40" && "40"[..1] == "4" && "4"[..0] == "";
  }

  /** A whole part and a fraction of known values add up to `amount`. */
  lemma ExampleAmount(digits: string, fraction: string, whole: int, cents: int, amount: real)
    requires DigitsValue(digits) == whole && ParseInt(fraction).Some? && ParseInt(fraction).value == cents
    requires amount == whole as real + cents as real / 100.0
    ensures Plus(Finite(DigitsValue(digits) as real), ParseInt(fraction).value as real / 100.0) == Finite(amount)
  {
    var v, c := DigitsValue(digits), ParseInt(fraction).value;
    CentsAmount(v, c, amount);
  }

  /** A whole amount plus a number of cents. */
  lemma CentsAmount(whole: int, cents: int, amount: real)
    requires amount == whole as real + cents as real / 100.0
    ensures Plus(Finite(whole as real), cents as real / 100.0) == Finite(amount)
  {
  }

  /** The cents the examples' fraction parts spell. */
  lemma ExampleCents(fraction: string, cents: nat)
    requires (fraction == "00" && cents == 0) || (fraction == "0" && cents == 0)
          || (fraction == "01" && cents == 1) || (fraction == "5" && cents == 5)
    ensures ParseInt(fraction).Some? && ParseInt(fraction).value == cents
  {
    SmallDigits();
    IntOfDigits(fraction);
  }

  /** `4.000,` is the digit groups `4` and `000` and a comma. */
  lemma FourThousandGroups(gs: seq<string>, whole: string)
    requires gs == ["4", "000"] && whole == "4.000,"
    ensures whole == Join(gs, ".") + ","
    ensures |gs| > 0 && (forall k :: 0 <= k < |gs| ==> IsDigitGroup(gs[k])) && Concat(gs) == "4000"
  {
    FourThousandJoin(gs, whole);
    FourThousandDigitGroups(gs);
    FourThousandConcat(gs);
  }

  lemma FourThousandJoin(gs: seq<string>, whole: string)
    requires gs == ["4", "000"] && whole == "4.000,"
    ensures whole == Join(gs, ".") + ","
  {
    JoinPair("4", "000", ".");
    assert "4" + "." + "000" + "," == whole;
  }

  lemma FourThousandDigitGroups(gs: seq<string>)
    requires gs == ["4", "000"]
    ensures |gs| > 0 && forall k :: 0 <= k < |gs| ==> IsDigitGroup(gs[k])
  {
  }

  lemma FourThousandConcat(gs: seq<string>)
    requires gs == ["4", "000"]
    ensures Concat(gs) == "4000"
  {
    ConcatPair("4", "000");
    assert "4" + "000" == "4000";
  }

  /** `4.000,` with `00` is four thousand. */
  lemma FourThousandExample(whole: string, fraction: string)
    requires whole == "4.000," && fraction == "00"
    ensures FormatPrice(whole, fraction) == Success(Finite(4000.0))
  {
    var gs := ["4", "000"];
    FourThousandGroups(gs, whole);
    DigitsOf4000();
    ExampleCents(fraction, 0);
    GroupedWholePart(gs, ",", fraction);
    ExampleAmount(Concat(gs), fraction, 4000, 0, 4000.0);
  }

  /** `4.000,` with `01` is one cent above four thousand. */
  lemma OneCentAboveExample(whole: string, fraction: string)
    requires whole == "4.000," && fraction == "01"
    ensures FormatPrice(whole, fraction) == Success(Finite(4000.01))
  {
    var gs := ["4", "000"];
    FourThousandGroups(gs, whole);
    DigitsOf4000();
    ExampleCents(fraction, 1);
    GroupedWholePart(gs, ",", fraction);
    ExampleAmount(Concat(gs), fraction, 4000, 1, 4000.01);
  }

  /** The fraction counts in hundredths whatever its length: `12` with `5`
      is 12.05, not 12.5. */
  lemma ShortFractionExample(whole: string, fraction: string)
    requires whole == "12" && fraction == "5"
    ensures FormatPrice(whole, fraction) == Success(Finite(12.05))
  {
    var gs := ["12"];
    ConcatPair("12", "");
    JoinPair("12", "", ".");
    assert whole == Join(gs, ".") + "";
    SmallDigits();
    ExampleCents(fraction, 5);
    GroupedWholePart(gs, "", fraction);
    ExampleAmount(Concat(gs), fraction, 12, 5, 12.05);
  }

  /** A price of exactly the target sends the alert; one cent more does not. */
  lemma TargetIsInclusive(atTarget: Doc, above: Doc)
    requires atTarget == PricedPage(["4.000", ","], ["00"]) && above == PricedPage(["4.000", ","], ["01"])
    ensures Decide(atTarget) == Success(Some(Notification(ProductName, Finite(4000.0), ProductPageUrl)))
    ensures Decide(above) == Success(None)
  {
    var digits, comma, whole := "4.000", ",", "4.000,";
    FourThousandText(digits, comma, whole);
    FourThousandExample(whole, "00");
    RenderedPageDecision(atTarget, digits, comma, whole, "00", Finite(4000.0));
    OneCentAboveExample(whole, "01");
    RenderedPageDecision(above, digits, comma, whole, "01", Finite(4000.01));
  }

  lemma FourThousandText(digits: string, comma: string, whole: string)
    requires digits == "4.000" && comma == "," && whole == "4.000,"
    ensures digits + comma == whole
  {
  }

  /** The decision for a page whose whole part comes as the digits and the
      decimal comma in two text fragments. */
  lemma RenderedPageDecision(doc: Doc, digits: string, comma: string, whole: string, fraction: string, x: Float)
    requires doc == PricedPage([digits, comma], [fraction]) && whole == digits + comma
    requires FormatPrice(whole, fraction) == Success(x)
    ensures Decide(doc) == if Exceeds(x, TargetPrice as real) then Success(None)
                           else Success(Some(Notification(ProductName, x, ProductPageUrl)))
  {
    ConcatPair(digits, comma);
    ConcatPair(fraction, "");
    PricedPageDecision(doc, [digits, comma], [fraction], x);
  }

  /** Whatever the amount, the alert goes out exactly when Python's
      `amount > 4000` is false; for a finite amount, exactly when it is at
      most the target. */
  lemma NotifiesIffAtMostTarget(doc: Doc, w: string, f: string, x: Float)
    requires ExtractPrice(doc) == Some((w, f)) && FormatPrice(w, f) == Success(x)
    ensures Decide(doc).Success?
    ensures Decide(doc).value.Some? <==> !Exceeds(x, TargetPrice as real)
    ensures x.Finite? ==> (Decide(doc).value.Some? <==> x.value <= TargetPrice as real)
    ensures Decide(doc).value.Some? ==> Decide(doc).value.value.price == x
  {
  }

  /** A whole part made of letters only passes the cleaning untouched; when
      `float()` reads it as `nan` or an infinity, adding a hundredth of the
      fraction leaves that value as it is. */
  lemma SpecialWholePart(whole: string, fraction: string, x: Float)
    requires forall i :: 0 <= i < |whole| ==> 'a' <= whole[i] <= 'z' || 'A' <= whole[i] <= 'Z'
    requires ParseFloat(whole).Some? && ParseFloat(whole).value == x && !x.Finite? && ParseInt(fraction).Some?
    ensures FormatPrice(whole, fraction) == Success(x)
  {
    CleanLetters(whole);
  }

  /** Cleaning leaves a string of letters alone. */
  lemma CleanLetters(whole: string)
    requires forall i :: 0 <= i < |whole| ==> 'a' <= whole[i] <= 'z' || 'A' <= whole[i] <= 'Z'
    ensures CleanWhole(whole) == whole
  {
    assert TrailingRun(whole, IsComma) == 0;
    assert TrimEnd(whole, IsComma) == whole;
    assert '.' !in whole;
    ReplaceCharAbsent(whole, '.', '_');
  }

  /** The decision for a page with one whole-part and one fraction string
      whose amount is `x`. */
  lemma PricedPageDecision(doc: Doc, whole: seq<string>, fraction: seq<string>, x: Float)
    requires doc == PricedPage(whole, fraction) && FormatPrice(Concat(whole), Concat(fraction)) == Success(x)
    ensures Decide(doc) == if Exceeds(x, TargetPrice as real) then Success(None)
                           else Success(Some(Notification(ProductName, x, ProductPageUrl)))
  {
    PricedPageParts(whole, fraction);
  }

  /** The alert for a page whose letters-only price reads as a special value
      `x`, which is `nan` or `inf`: sent for `nan`, since `nan > 4000` is
      false in Python, but not for `inf`. */
  lemma SpecialPriceDecision(doc: Doc, whole: string, fraction: string, x: Float)
    requires doc == PricedPage([whole], [fraction])
    requires forall i :: 0 <= i < |whole| ==> 'a' <= whole[i] <= 'z' || 'A' <= whole[i] <= 'Z'
    requires ParseFloat(whole).Some? && ParseFloat(whole).value == x && !x.Finite? && ParseInt(fraction).Some?
    ensures x != PosInf ==> Decide(doc) == Success(Some(Notification(ProductName, x, ProductPageUrl)))
    ensures x == PosInf ==> Decide(doc) == Success(None)
  {
    SpecialWholePart(whole, fraction, x);
    ConcatPair(whole, "");
    ConcatPair(fraction, "");
    PricedPageDecision(doc, [whole], [fraction], x);
  }

  /** A page showing `nan` sends the alert, with a `nan` price. As above, the
      strings are parameters fixed by `requires`. */
  lemma NotANumberNotifies(page: Doc, whole: string, fraction: string)
    requires whole == "nan" && fraction == "0" && page == PricedPage([whole], [fraction])
    ensures Decide(page) == Success(Some(Notification(ProductName, NaN, ProductPageUrl)))
  {
    SpecialWord(whole, "nan", NaN);
    ExampleCents(fraction, 0);
    SpecialPriceDecision(page, whole, fraction, NaN);
  }

  /** A page showing `inf` sends nothing. */
  lemma InfinityIsQuiet(page: Doc, whole: string, fraction: string)
    requires whole == "inf" && fraction == "0" && page == PricedPage([whole], [fraction])
    ensures Decide(page) == Success(None)
  {
    SpecialWord(whole, "inf", PosInf);
    ExampleCents(fraction, 0);
    SpecialPriceDecision(page, whole, fraction, PosInf);
  }

  /** The special word, written in lower case, is made of letters and read
      by `float()` as its value. */
  lemma SpecialWord(whole: string, word: string, x: Float)
    requires (word == "nan" && x == NaN) || (word == "inf" && x == PosInf)
    requires whole == word
    ensures forall i :: 0 <= i < |whole| ==> 'a' <= whole[i] <= 'z' || 'A' <= whole[i] <= 'Z'
    ensures ParseFloat(whole).Some? && ParseFloat(whole).value == x
  {
    assert LowerAscii(whole) == word;
    FloatOfSpecialWord(whole, word, x);
    LettersOnly(whole, word);
  }
}
