/** The two pieces of logic in the settings: how the e-mail settings read an
    environment variable, and the check on the product URL. */
module Settings {
  import opened Wrappers
  import opened PyStr
  import opened JsonValue

  /** The name of the e-mail field that is read as a comma-separated list. */
  const RecipientsField: string := "recipients"

  /** The start every product URL must have. */
  const AmazonPrefix: string := "https://www.amazon."

  /** What `parse_env_var` hands back: the recipients as a list of strings, or
      whatever `json.loads` made of the raw value. */
  datatype EnvValue = Recipients(addresses: seq<string>) | Decoded(value: Json)

  /** `[email.strip() for email in raw_val.split(',')]`: one entry per
      comma-separated piece, in order, each with its surrounding whitespace
      cut off. */
  function ParseRecipients(raw: string): (r: seq<string>)
    ensures |r| == Count(raw, ',') + 1
    ensures forall k :: 0 <= k < |r| ==> ',' !in r[k] && IsStripped(r[k])
    ensures exists pieces :: |pieces| == |r| && Join(pieces, ",") == raw
                          && (forall k :: 0 <= k < |pieces| ==> ',' !in pieces[k])
                          && (forall k :: 0 <= k < |r| ==> r[k] == Strip(pieces[k]))
  {
    var pieces := Split(raw, ',');
    var r := StripEach(pieces);
    forall k | 0 <= k < |r| ensures ',' !in r[k] {
      if ',' in r[k] {
        TrimSubset(pieces[k], IsSpace, ',');
      }
    }
    r
  }

  /** The pieces between the commas are exactly the ones `ParseRecipients`
      strips: any comma-free pieces that join back to `raw` are those. */
  lemma RecipientPiecesUnique(raw: string, pieces: seq<string>)
    requires |pieces| > 0 && Join(pieces, ",") == raw
    requires forall k :: 0 <= k < |pieces| ==> ',' !in pieces[k]
    ensures ParseRecipients(raw) == StripEach(pieces)
  {
    SplitJoin(pieces, ',');
  }

  /** `EmailSettings.Config.parse_env_var`: the recipients field is split and
      stripped and cannot fail; every other field goes to `json.loads`, whose
      failure (`None`) is the `JSONDecodeError`, a `ValueError`. */
  function ParseEnvVar(fieldName: string, raw: string, loads: string -> Option<Json>): (r: Result<EnvValue, PyError>)
    ensures fieldName == RecipientsField ==> r == Success(Recipients(ParseRecipients(raw)))
    ensures fieldName != RecipientsField ==> (r.Success? <==> loads(raw).Some?)
    ensures fieldName != RecipientsField && r.Success? ==> r == Success(Decoded(loads(raw).value))
    ensures r.Failure? ==> r.error == ValueError
  {
    if fieldName == RecipientsField then Success(Recipients(ParseRecipients(raw)))
    else
      match loads(raw)
      case None => Failure(ValueError)
      case Some(v) => Success(Decoded(v))
  }

  /** The recipients field never reaches the JSON decoder. */
  lemma RecipientsIgnoreDecoder(raw: string, loads1: string -> Option<Json>, loads2: string -> Option<Json>)
    ensures ParseEnvVar(RecipientsField, raw, loads1) == ParseEnvVar(RecipientsField, raw, loads2)
    ensures ParseEnvVar(RecipientsField, raw, loads1).Success?
  {
  }

  /** The pieces of `Join(addrs, ", ")` between the commas: the first
      address, then each further one behind a space. */
  function Padded(addrs: seq<string>): (r: seq<string>)
    ensures |r| == |addrs|
  {
    seq(|addrs|, k requires 0 <= k < |addrs| => if k == 0 then addrs[0] else " " + addrs[k])
  }

  /** Putting a prefix before the first part puts it before the whole join. */
  lemma JoinPrefixFirst(parts: seq<string>, prefix: string, sep: string)
    requires |parts| > 0
    ensures Join([prefix + parts[0]] + parts[1..], sep) == prefix + Join(parts, sep)
  {
    var q := [prefix + parts[0]] + parts[1..];
    assert q[1..] == parts[1..];
  }

  lemma {:induction false} JoinWithSpace(addrs: seq<string>)
    requires |addrs| > 0
    ensures Join(addrs, ", ") == Join(Padded(addrs), ",")
    decreases |addrs|
  {
    if |addrs| > 1 {
      var tail := addrs[1..];
      JoinWithSpace(tail);
      var p, pt := Padded(addrs), Padded(tail);
      assert p[1..] == [" " + pt[0]] + pt[1..];
      JoinPrefixFirst(pt, " ", ",");
      assert Join(p, ",") == addrs[0] + "," + (" " + Join(pt, ","));
    }
  }

  /** Addresses that are comma-free and carry no surrounding whitespace come
      back unchanged from the `", "`-separated form people write. */
  lemma RecipientsRoundTrip(addrs: seq<string>)
    requires |addrs| > 0
    requires forall k :: 0 <= k < |addrs| ==> ',' !in addrs[k] && IsStripped(addrs[k])
    ensures ParseRecipients(Join(addrs, ", ")) == addrs
  {
    JoinWithSpace(addrs);
    PaddedPieces(addrs);
    RecipientPiecesUnique(Join(addrs, ", "), Padded(addrs));
  }

  /** The padded pieces hold no comma, and stripping them gives the addresses. */
  lemma PaddedPieces(addrs: seq<string>)
    requires forall k :: 0 <= k < |addrs| ==> ',' !in addrs[k] && IsStripped(addrs[k])
    ensures forall k :: 0 <= k < |addrs| ==> ',' !in Padded(addrs)[k]
    ensures StripEach(Padded(addrs)) == addrs
  {
    var p := Padded(addrs);
    forall k | 0 <= k < |addrs| ensures ',' !in p[k] && Strip(p[k]) == addrs[k] {
      if k == 0 {
        StripKeepsStripped(addrs[0]);
      } else {
        assert p[k] == [' '] + addrs[k];
        StripDropsLeadingSpace(' ', addrs[k]);
      }
    }
  }

  /** A blank value gives one empty recipient, not an empty list. */
  lemma BlankRecipients(raw: string)
    requires AllSpace(raw)
    ensures ParseRecipients(raw) == [""]
  {
    assert ',' !in raw;
    CountAbsent(raw, ',');
    assert Split(raw, ',') == [raw] by {
      RecipientPiecesUnique(raw, [raw]);
      SplitJoin([raw], ',');
    }
    StripOfBlank(raw);
  }

  /** `TargetProduct.url_must_contain_amazon_domain`: the URL, unchanged,
      when it starts with `https://www.amazon.`; a `ValueError` otherwise. */
  function ValidateUrl(value: string): (r: Result<string, PyError>)
    ensures r.Success? <==> |value| >= |AmazonPrefix| && forall i :: 0 <= i < |AmazonPrefix| ==> value[i] == AmazonPrefix[i]
    ensures r.Success? ==> r.value == value
    ensures r.Failure? ==> r.error == ValueError
  {
    if StartsWith(value, AmazonPrefix) then Success(value) else Failure(ValueError)
  }

  /** Whatever follows the prefix, the URL is accepted. */
  lemma AcceptsAnyPath(rest: string)
    ensures ValidateUrl(AmazonPrefix + rest) == Success(AmazonPrefix + rest)
  {
    assert (AmazonPrefix + rest)[..|AmazonPrefix|] == AmazonPrefix;
  }

  /** Plain `http`, and a host without `www.`, are refused. */
  lemma RejectsOtherSchemesAndHosts(rest: string)
    ensures ValidateUrl("http://www.amazon." + rest) == Failure(ValueError)
    ensures ValidateUrl("https://amazon." + rest) == Failure(ValueError)
  {
    assert ("http://www.amazon." + rest)[4] == ':' != AmazonPrefix[4];
    assert ("https://amazon." + rest)[8] == 'a' != AmazonPrefix[8];
  }
}
