# amazon-price-tracker: a Dafny model of the price check

The tracker loads one Amazon product page, finds the displayed price, and
sends an e-mail alert when the price is at most the target of 4000. This
project models the pure logic behind that run:

- the price pipeline of the entry point: `extract_price`, `format_price` and
  the decision part of `main`;
- the three markup lookups of the scraper: product title, displayed price and
  page locale;
- the two pieces of logic in the settings: how the e-mail settings read an
  environment variable, and the check on the product URL.

The page is an already-parsed document: a sequence of elements in document
order. Each element has a tag name, an optional `id`, its classes and the
text strings below it. `find` and `select_one` return the first matching
element. `.text` concatenates the strings. `get_text(strip=True)`
concatenates them after stripping each one.

Python's `float()` and `int()` are modelled on their string grammar. That
covers underscores (allowed only between two digits), surrounding
whitespace, an optional sign, `inf`/`infinity`/`nan` in any letter case, and
decimal literals with an optional exponent. Values are exact: a finite float
is a `real`, and the three special floats are their own cases. Python's `>`
on a `nan` is false, and the model keeps that.

Files, one module each:

- `wrappers.dfy`: `Option`, `Result` and the Python exceptions that can come out.
- `pystr.dfy`: the `str` methods used (`strip`, `rstrip`, `replace`, `split`,
  `startswith`) and facts about them, plus `join`, which states the
  round trip of `split`, and the ASCII lower-casing with which `float()`
  matches `inf` and `nan`.
- `pynumbers.dfy`: `float()`, `int()`, float addition and `>`.
- `json.dfy`: the values the model lets `json.loads` produce.
- `document.dfy`: the parsed page and BeautifulSoup's first-match lookups.
- `tracker.dfy`: `amazon_price_tracker/__main__.py`.
- `scraper.dfy`: `amazon_price_tracker/scraper.py`.
- `settings.dfy`: `amazon_price_tracker/settings.py`.

`format_price` has no locale handling: it always reads `.` as a group
separator and takes the decimal part from its own element, adding
`int(fraction) / 100`. The locale `extract_locale` finds is not used by the
price check.

## Model

| member | source | states |
|---|---|---|
| Tracker.ExtractPrice | amazon_price_tracker/__main__.py:27-34 | nothing when no element has class `a-price-whole` or none has class `a-price-fraction`; otherwise the unstripped text of the first element of each class, in document order |
| Tracker.CleanWhole | amazon_price_tracker/__main__.py:38 | the input up to its trailing commas, character by character, with every `.` turned into `_`: every character cut off is a `,`, and the last one kept is not; so the result holds no `.` |
| Tracker.FormatPrice | amazon_price_tracker/__main__.py:37-39 | `format_price` fails only with `ValueError` (the paths of Python's `int()` that raise otherwise are listed under Left out) |
| Tracker.TrailingCommaIgnored | amazon_price_tracker/__main__.py:38 | one more trailing comma never changes the price, so `4.000`, `4.000,` and `4.000,,` agree |
| Tracker.GroupSeparatorIgnored | amazon_price_tracker/__main__.py:38-39 | a `.` directly between two digits is a group separator: the price is the one without it |
| Tracker.LeadingPointRejected | amazon_price_tracker/__main__.py:38-39 | a whole part starting with `.` raises `ValueError` |
| Tracker.TrailingPointRejected | amazon_price_tracker/__main__.py:38-39 | a whole part ending with `.` before its trailing commas raises `ValueError` |
| Tracker.DoubledPointRejected | amazon_price_tracker/__main__.py:38-39 | two `.` in a row raise `ValueError` |
| Tracker.PointInFractionRejected | amazon_price_tracker/__main__.py:39 | a fraction part holding a `.` raises `ValueError` |
| Tracker.GroupedWholePart | amazon_price_tracker/__main__.py:38-39 | digit groups joined by `.` plus any trailing commas are worth the number their digits spell, plus a hundredth of the fraction |
| Tracker.CleanGroupedWhole | amazon_price_tracker/__main__.py:38 | cleaning such a whole part gives the groups joined by `_` |
| Tracker.TrimGroupedWhole | amazon_price_tracker/__main__.py:38 | `rstrip(',')` removes exactly the trailing commas of such a whole part |
| Tracker.FourThousandExample | amazon_price_tracker/__main__.py:37-39 | `("4.000,", "00")` is 4000 |
| Tracker.OneCentAboveExample | amazon_price_tracker/__main__.py:37-39 | `("4.000,", "01")` is 4000.01 |
| Tracker.ShortFractionExample | amazon_price_tracker/__main__.py:39 | `("12", "5")` is 12.05, not 12.5: the fraction counts in hundredths whatever its length |
| Tracker.Decide | amazon_price_tracker/__main__.py:58-65 | quiet when the price elements are missing; when they are present, it raises exactly when `format_price` raises, and then with a `ValueError`; an alert only for a price that parsed and does not exceed the target; the alert names `PS5` and links the product page |
| Tracker.PricedPageDecision | amazon_price_tracker/__main__.py:58-74 | on a page with the two price elements, quiet when the price exceeds 4000, otherwise an alert with that price |
| Tracker.RenderedPageDecision | amazon_price_tracker/__main__.py:58-74 | the same decision when the whole part is rendered as digits plus a separate decimal comma |
| Tracker.NotifiesIffAtMostTarget | amazon_price_tracker/__main__.py:63-65 | for any parsed price, including `nan` and the infinities, an alert exactly when `price > 4000` is false, carrying that price; for a finite price, exactly when it is at most 4000 |
| Tracker.TargetIsInclusive | amazon_price_tracker/__main__.py:63-65 | a page showing 4.000,00 sends the alert for 4000; a page showing 4.000,01 sends nothing |
| Tracker.SpecialWholePart | amazon_price_tracker/__main__.py:38-39 | a whole part of letters that `float()` reads as `nan` or an infinity gives that value unchanged, whatever the fraction |
| Tracker.SpecialPriceDecision | amazon_price_tracker/__main__.py:63-65 | for a letters-only whole part that `float()` reads as `nan` or `inf`: `nan` sends the alert, `inf` sends nothing |
| Tracker.NotANumberNotifies | amazon_price_tracker/__main__.py:63-65 | a page showing `nan` sends the alert, because `nan > 4000` is false |
| Tracker.InfinityIsQuiet | amazon_price_tracker/__main__.py:63-65 | a page showing `inf` sends nothing |
| PyNumbers.ParseFloat | amazon_price_tracker/__main__.py:39 | `float(str)`: the underscore check on the whole string, then underscores removed, surrounding whitespace skipped, and the literal grammar (sign, `inf`/`infinity`/`nan`, decimal with optional exponent); `None` is the `ValueError` |
| PyNumbers.ParseInt | amazon_price_tracker/__main__.py:39 | `int(str)`: surrounding whitespace, an optional sign, digits with single underscores between them; `None` is the `ValueError` |
| PyNumbers.Plus | amazon_price_tracker/__main__.py:39 | float `+` of a finite amount: adds to a finite value, leaves `nan` and the infinities as they are |
| PyNumbers.Exceeds | amazon_price_tracker/__main__.py:64 | Python's `>` against the target: true for `inf`, false for `-inf` and for `nan` |
| PyNumbers.UnderscoreBetweenDigitsIgnored | amazon_price_tracker/__main__.py:38-39 | `float()` ignores an underscore between two digits |
| PyNumbers.UnderscoreCheckAcrossJoin | amazon_price_tracker/__main__.py:38-39 | whether the underscores are well placed does not change when one is put between two digits |
| PyNumbers.FloatOfUnderscoreGroups | amazon_price_tracker/__main__.py:38-39 | `float()` of digit groups joined by `_` is the number the digits spell |
| PyNumbers.LeadingUnderscoreRejected | amazon_price_tracker/__main__.py:38-39 | `float()` refuses a leading underscore |
| PyNumbers.TrailingUnderscoreRejected | amazon_price_tracker/__main__.py:38-39 | `float()` refuses a trailing underscore |
| PyNumbers.DoubledUnderscoreRejected | amazon_price_tracker/__main__.py:38-39 | `float()` refuses two underscores in a row |
| PyNumbers.FloatOfDigits | amazon_price_tracker/__main__.py:39 | `float()` of a digit string is its decimal value |
| PyNumbers.IntOfDigits | amazon_price_tracker/__main__.py:39 | `int()` of a digit string is its decimal value |
| PyNumbers.IntRejectsPoint | amazon_price_tracker/__main__.py:39 | `int()` refuses any string containing a `.` |
| PyNumbers.FloatOfSpecialWord | amazon_price_tracker/__main__.py:39 | `float()` reads `nan`, `inf` and `infinity` in any letter case |
| Document.Matches | amazon_price_tracker/__main__.py:28-29 | what `select_one('.c')`, `find(name, id=…)` and `find(name, class_=…)` accept: the class among the element's classes, the tag name and id, or the tag name and class |
| Document.Text | amazon_price_tracker/__main__.py:34 | `.text`: every text string below the tag, concatenated |
| Document.StrippedText | amazon_price_tracker/scraper.py:24 | `get_text(strip=True)`: every text string stripped, concatenated without separator |
| Document.FirstMatch | amazon_price_tracker/scraper.py:18 | no position exactly when nothing matches; otherwise the first matching position |
| Document.Find | amazon_price_tracker/scraper.py:18 | nothing exactly when no element matches; otherwise the first match in document order |
| Document.FindIsFirstMatching | amazon_price_tracker/scraper.py:18 | the lookup returns the first of the matching elements and depends on nothing else |
| Document.FindLocal | amazon_price_tracker/scraper.py:18 | pages with the same matching elements give the same lookup result |
| Document.InsertNonMatching | amazon_price_tracker/scraper.py:18 | inserting a non-matching element anywhere leaves the matching elements unchanged |
| Scraper.LookUpText | amazon_price_tracker/scraper.py:16-24 | `""` when nothing matches; otherwise the stripped text of the first match; the result is stripped |
| Scraper.StrippedTextIsStripped | amazon_price_tracker/scraper.py:24 | `get_text(strip=True)` never starts or ends with whitespace |
| Scraper.ConcatOfStripped | amazon_price_tracker/scraper.py:24 | a concatenation of stripped strings is stripped |
| Scraper.ExtractProductTitle | amazon_price_tracker/scraper.py:16-24 | `""` when no `span` has id `productTitle`; otherwise the stripped text of the first one |
| Scraper.ExtractProductPrice | amazon_price_tracker/scraper.py:27-35 | `""` when no `span` has class `a-offscreen`; otherwise the stripped text of the first one |
| Scraper.LocaleOf | amazon_price_tracker/scraper.py:46-54 | `""` for undecodable text, an empty array or an empty string; the `locale` value, or `""`, of an array starting with an object; `KeyError` for an object; `TypeError` for a number, boolean or null; `AttributeError` for a non-empty string and for an array whose first element is not an object |
| Scraper.LocaleField | amazon_price_tracker/scraper.py:54 | `.get('locale', '')` succeeds exactly on an object and otherwise raises `AttributeError` |
| Scraper.ExtractLocale | amazon_price_tracker/scraper.py:38-54 | `""` when no price-data `div` exists; otherwise the outcome of decoding the normalised, stripped text of the first one |
| Scraper.LocaleErrors | amazon_price_tracker/scraper.py:46-54 | the lookup raises exactly when the decoded content is neither caught nor an array starting with an object, and never raises `IndexError` or the decoder's `ValueError` |
| Scraper.TitleLocal | amazon_price_tracker/scraper.py:18 | the title depends only on the elements its selector matches |
| Scraper.PriceLocal | amazon_price_tracker/scraper.py:29 | the price text depends only on the elements its selector matches |
| Scraper.LocaleLocal | amazon_price_tracker/scraper.py:40 | the locale depends only on the elements its selector matches |
| Scraper.UnrelatedElementIgnored | amazon_price_tracker/scraper.py:18-54 | inserting an element none of the three selectors matches changes none of the three results |
| Settings.ParseRecipients | amazon_price_tracker/settings.py:40 | one entry more than the raw value has commas; each entry is comma-free and stripped, and is the strip of the matching comma-separated piece, in order |
| Settings.RecipientPiecesUnique | amazon_price_tracker/settings.py:40 | any comma-free pieces that join back to the raw value are the ones that get stripped |
| Settings.ParseEnvVar | amazon_price_tracker/settings.py:37-42 | the `recipients` field is split and stripped and cannot fail; any other field is whatever `json.loads` returns, and its failure is a `ValueError` |
| Settings.RecipientsIgnoreDecoder | amazon_price_tracker/settings.py:39-40 | the recipients field never reaches the JSON decoder |
| Settings.RecipientsRoundTrip | amazon_price_tracker/settings.py:40 | comma-free, stripped addresses joined with `", "` parse back to themselves |
| Settings.JoinWithSpace | amazon_price_tracker/settings.py:40 | joining with `", "` is joining the space-padded addresses with `,` |
| Settings.BlankRecipients | amazon_price_tracker/settings.py:40 | an empty or blank value gives one empty entry, not an empty list |
| Settings.ValidateUrl | amazon_price_tracker/settings.py:52-57 | accepted exactly when the value starts with `https://www.amazon.`, and then returned unchanged; otherwise a `ValueError` |
| Settings.AcceptsAnyPath | amazon_price_tracker/settings.py:54-57 | anything after the prefix is accepted |
| Settings.RejectsOtherSchemesAndHosts | amazon_price_tracker/settings.py:54-55 | `http://www.amazon.…` and `https://amazon.…` raise `ValueError` |
| PyStr.Trim | amazon_price_tracker/scraper.py:24 | the trim is a slice of the input; everything cut off on either side satisfies the predicate; the ends of the result do not |
| PyStr.Strip | amazon_price_tracker/settings.py:40 | `str.strip()` gives a stripped slice of its input, with only whitespace cut off |
| PyStr.Split | amazon_price_tracker/settings.py:40 | `str.split(',')` gives one piece more than there are commas; the pieces are comma-free and join back to the input |
| PyStr.SplitJoin | amazon_price_tracker/settings.py:40 | splitting comma-free pieces joined by commas gives the pieces back |
| PyStr.RemoveChar | amazon_price_tracker/__main__.py:39 | removing the underscores leaves none, shortens the string by their count and adds no character |
| PyStr.ReplaceChar | amazon_price_tracker/__main__.py:38 | `replace('.', '_')` keeps the length and replaces exactly the `.` characters |
| PyStr.ReplaceInJoin | amazon_price_tracker/__main__.py:38 | replacing the separator of a join whose parts lack it swaps the separator |
| PyStr.TrimEnd | amazon_price_tracker/__main__.py:38 | `rstrip`: a prefix of the input that does not end in a stripped character, with only stripped characters cut off |
| PyStr.StartsWith | amazon_price_tracker/settings.py:54 | `str.startswith`: the prefix is the first characters of the string |
| PyStr.TrimEndAppend | amazon_price_tracker/__main__.py:38 | `rstrip` of a string whose front ends in a kept character trims only the back |

## Left out

- Fetching the page (`get_html_page`) and parsing the HTML with BeautifulSoup are not modelled. The model starts from the parsed element sequence.
- Sending the e-mail is not modelled: `send_email`, the SMTP client and `email_client.py`. The decision returns the alert's contents (product name, price, link) instead. The f-string body of the message is left out.
- Tracker.Decide: models `main`'s decision as if `__main__.py` loads. As written, `amazon_price_tracker/__main__.py:7-17` imports `EMAIL_RECIPIENTS`, `EMAIL_SENDER` and the four `SMTP_SERVER_*` names from `constants.py`, which defines only `PRODUCT_PAGE_URL`, `REQUEST_HEADERS` and `TARGET_PRICE` (`amazon_price_tracker/constants.py:1-17`). Read as text, that import raises `ImportError` before `main` runs.
- Logging (`logger.error`, `log_manager.py`) is not modelled. It has no effect on any result.
- Loading the settings (pydantic, dotenv and the module-level instances) is not modelled. Only the two functions of the settings are. Which fields pydantic hands to `parse_env_var` is library behaviour.
- The `HttpUrl` and `EmailStr` field validation pydantic performs before or after the validator is library behaviour and is left out.
- `normalize_string` (NFKD normalisation) and `json.loads` are function parameters of `Scraper.ExtractLocale`. Their internals are not modelled.
- JSON numbers are exact reals, so the `NaN`, `Infinity` and `-Infinity` values Python's decoder accepts are not represented. A locale value equal to one of them (`[{"locale": NaN}]`), or a setting other than `recipients` that decodes to one, has no counterpart in the model. As the top-level value such a number raises `TypeError`, and as the first array element `AttributeError`, like any other number, so those outcomes are unchanged.
- Tracker.FormatPrice: amounts are exact reals. The model does not capture binary floating-point rounding, overflow of very large literals to `inf`, or the rounding of `int(fraction) / 100`.
- Tracker.FormatPrice: two error paths of `int(fraction) / 100` are not modelled, and the model returns a price there: the `OverflowError` of the true division once the fraction's int exceeds the float range (about 1.8e310), and the `ValueError` that CPython versions with the integer string conversion length limit raise for a fraction of more than 4300 digits. Both depend on the interpreter's float format and configuration.
- PyNumbers.ParseFloat and PyNumbers.ParseInt accept ASCII digits only. Python also accepts other Unicode decimal digits.
- Tracker.ProductPageUrl is the configured URL. There is no lemma that it passes `Settings.ValidateUrl`: the literal is too long for the verifier to evaluate.
