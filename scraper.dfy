/** The three lookups of the page scraper: the product title, the displayed
    price and the page locale. Each looks up one element and falls back to
    the empty string when the page does not have what it looks for. */
module Scraper {
  import opened Wrappers
  import opened PyStr
  import opened JsonValue
  import opened Document

  const TitleSelector: Selector := ByNameAndId("span", "productTitle")
  const PriceSelector: Selector := ByNameAndClass("span", "a-offscreen")
  const LocaleSelector: Selector := ByNameAndClass("div", "twister-plus-buying-options-price-data")

  /** The stripped text of the first element `sel` matches, or `""`. */
  function LookUpText(doc: Doc, sel: Selector): (r: string)
    ensures NoMatch(doc, sel) ==> r == ""
    ensures forall i :: IsFirstMatch(doc, sel, i) ==> r == StrippedText(doc[i])
    ensures IsStripped(r)
  {
    match Find(doc, sel)
    case None => ""
    case Some(e) =>
      StrippedTextIsStripped(e);
      StrippedText(e)
  }

  /** A concatenation of stripped pieces is itself stripped: its first
      character opens the first non-empty piece and its last closes the last. */
  lemma {:induction false} ConcatOfStripped(parts: seq<string>)
    requires forall k :: 0 <= k < |parts| ==> IsStripped(parts[k])
    ensures IsStripped(Concat(parts))
    decreases |parts|
  {
    if parts != [] {
      ConcatOfStripped(parts[1..]);
      var rest := Concat(parts[1..]);
      assert Concat(parts) == parts[0] + rest;
      if parts[0] != [] && rest != [] {
        assert (parts[0] + rest)[0] == parts[0][0];
        assert (parts[0] + rest)[|parts[0] + rest| - 1] == rest[|rest| - 1];
      } else if parts[0] == [] {
        assert parts[0] + rest == rest;
      } else {
        assert parts[0] + rest == parts[0];
      }
    }
  }

  /** `get_text(strip=True)` never starts or ends with whitespace. */
  lemma StrippedTextIsStripped(e: Element)
    ensures IsStripped(StrippedText(e))
  {
    var parts := StripEach(e.fragments);
    forall k | 0 <= k < |parts| ensures IsStripped(parts[k]) {
      assert parts[k] == Strip(e.fragments[k]);
    }
    ConcatOfStripped(parts);
  }

  /** `extract_product_title`: the stripped text of the first `span` with id
      `productTitle`, or `""` when there is none. */
  function ExtractProductTitle(doc: Doc): (r: string)
    ensures NoMatch(doc, TitleSelector) ==> r == ""
    ensures forall i :: IsFirstMatch(doc, TitleSelector, i) ==> r == StrippedText(doc[i])
    ensures IsStripped(r)
  {
    LookUpText(doc, TitleSelector)
  }

  /** `extract_product_price`: the stripped text of the first `span` with
      class `a-offscreen`, or `""` when there is none. */
  function ExtractProductPrice(doc: Doc): (r: string)
    ensures NoMatch(doc, PriceSelector) ==> r == ""
    ensures forall i :: IsFirstMatch(doc, PriceSelector, i) ==> r == StrippedText(doc[i])
    ensures IsStripped(r)
  {
    LookUpText(doc, PriceSelector)
  }

  /** The decoded tag content for which `extract_locale` catches an exception
      and returns `""`: text that is no JSON (`JSONDecodeError`), and an empty
      array or an empty string, whose `[0]` raises `IndexError`. */
  predicate Caught(decoded: Option<Json>) {
    match decoded
    case None => true
    case Some(JArr(items)) => items == []
    case Some(JStr(s)) => s == []
    case Some(_) => false
  }

  /** An array whose first element is an object: the data the code expects. */
  predicate FirstIsObject(decoded: Option<Json>) {
    decoded.Some? && decoded.value.JArr? && |decoded.value.items| > 0 && decoded.value.items[0].JObj?
  }

  /** `price_data.get('locale', '')` on `price_data = json.loads(text)[0]`,
      given what `json.loads` returned (`None` when it raised). Indexing an
      object with `0` raises `KeyError`, indexing a number, a boolean or
      `null` raises `TypeError`, and a value without `.get` (a string, an
      array, a number, ...) raises `AttributeError`; none of these is caught. */
  function LocaleOf(decoded: Option<Json>): (r: Result<Json, PyError>)
    ensures Caught(decoded) ==> r == Success(JStr(""))
    ensures FirstIsObject(decoded) ==>
              var fields := decoded.value.items[0].fields;
              r == Success(if "locale" in fields then fields["locale"] else JStr(""))
    ensures r.Success? <==> Caught(decoded) || FirstIsObject(decoded)
    ensures decoded.Some? && decoded.value.JObj? ==> r == Failure(KeyError)
    ensures decoded.Some? && (decoded.value.JNum? || decoded.value.JBool? || decoded.value.JNull?) ==> r == Failure(TypeError)
    ensures decoded.Some? && decoded.value.JStr? && decoded.value.s != [] ==> r == Failure(AttributeError)
    ensures decoded.Some? && decoded.value.JArr? && |decoded.value.items| > 0 && !decoded.value.items[0].JObj? ==>
              r == Failure(AttributeError)
    ensures r.Failure? ==> r.error in {KeyError, TypeError, AttributeError}
  {
    match decoded
    case None => Success(JStr(""))
    case Some(JArr(items)) => if items == [] then Success(JStr("")) else LocaleField(items[0])
    case Some(JStr(s)) => if s == [] then Success(JStr("")) else Failure(AttributeError)
    case Some(JObj(_)) => Failure(KeyError)
    case Some(_) => Failure(TypeError)
  }

  /** `.get('locale', '')` on the first array element. */
  function LocaleField(first: Json): (r: Result<Json, PyError>)
    ensures r.Success? <==> first.JObj?
    ensures r.Failure? ==> r.error == AttributeError
  {
    match first
    case JObj(fields) => Success(if "locale" in fields then fields["locale"] else JStr(""))
    case _ => Failure(AttributeError)
  }

  /** `extract_locale`, with NFKD normalisation and `json.loads` passed in:
      `""` when the page has no price-data `div`, otherwise what `LocaleOf`
      makes of the decoded, normalised, stripped text of the first one. */
  function ExtractLocale(doc: Doc, nfkd: string -> string, loads: string -> Option<Json>): (r: Result<Json, PyError>)
    ensures NoMatch(doc, LocaleSelector) ==> r == Success(JStr(""))
    ensures forall i :: IsFirstMatch(doc, LocaleSelector, i) ==> r == LocaleOf(loads(nfkd(StrippedText(doc[i]))))
  {
    match Find(doc, LocaleSelector)
    case None => Success(JStr(""))
    case Some(e) => LocaleOf(loads(nfkd(StrippedText(e))))
  }

  /** The locale lookup raises only when the first price-data `div` holds
      JSON other than an array starting with an object, an empty array or an
      empty string; and the error is never one of the two it catches. */
  lemma LocaleErrors(doc: Doc, nfkd: string -> string, loads: string -> Option<Json>, i: nat)
    requires IsFirstMatch(doc, LocaleSelector, i)
    ensures var decoded := loads(nfkd(StrippedText(doc[i])));
            ExtractLocale(doc, nfkd, loads).Failure? <==> !Caught(decoded) && !FirstIsObject(decoded)
    ensures ExtractLocale(doc, nfkd, loads).Failure? ==>
              ExtractLocale(doc, nfkd, loads).error != IndexError && ExtractLocale(doc, nfkd, loads).error != ValueError
  {
  }

  // ---------------------------------------------------------------------------
  // Each lookup sees only the elements its own selector matches.

  lemma TitleLocal(d1: Doc, d2: Doc)
    requires Matching(d1, TitleSelector) == Matching(d2, TitleSelector)
    ensures ExtractProductTitle(d1) == ExtractProductTitle(d2)
  {
    FindLocal(d1, d2, TitleSelector);
  }

  lemma PriceLocal(d1: Doc, d2: Doc)
    requires Matching(d1, PriceSelector) == Matching(d2, PriceSelector)
    ensures ExtractProductPrice(d1) == ExtractProductPrice(d2)
  {
    FindLocal(d1, d2, PriceSelector);
  }

  lemma LocaleLocal(d1: Doc, d2: Doc, nfkd: string -> string, loads: string -> Option<Json>)
    requires Matching(d1, LocaleSelector) == Matching(d2, LocaleSelector)
    ensures ExtractLocale(d1, nfkd, loads) == ExtractLocale(d2, nfkd, loads)
  {
    FindLocal(d1, d2, LocaleSelector);
  }

  /** Adding an element that none of the three selectors matches, anywhere in
      the page, changes none of the three results. */
  lemma UnrelatedElementIgnored(doc: Doc, k: nat, e: Element, nfkd: string -> string, loads: string -> Option<Json>)
    requires k <= |doc|
    requires !Matches(e, TitleSelector) && !Matches(e, PriceSelector) && !Matches(e, LocaleSelector)
    ensures var doc' := doc[..k] + [e] + doc[k..];
            ExtractProductTitle(doc') == ExtractProductTitle(doc)
            && ExtractProductPrice(doc') == ExtractProductPrice(doc)
            && ExtractLocale(doc', nfkd, loads) == ExtractLocale(doc, nfkd, loads)
  {
    var doc' := doc[..k] + [e] + doc[k..];
    InsertNonMatching(doc, k, e, TitleSelector);
    InsertNonMatching(doc, k, e, PriceSelector);
    InsertNonMatching(doc, k, e, LocaleSelector);
    TitleLocal(doc', doc);
    PriceLocal(doc', doc);
    LocaleLocal(doc', doc, nfkd, loads);
  }
}
