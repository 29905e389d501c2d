/**
 * The presigned-URL builder of fast_s3_url/s3_signer.py: AWS Signature
 * Version 4 query-string authentication for a GET of an object with an
 * unsigned payload and `host` as the only signed header.
 *
 * A `FastS3UrlSigner` splits its bucket endpoint once; each batch call then
 * computes the date stamps, the signing key, the credential scope and the
 * sorted query-string template once, and per key only encodes the key,
 * hashes the canonical request and signs the string to sign.
 */
module S3Signer {
  import opened Wrappers
  import opened Hex
  import opened Utf8
  import opened Quoting
  import opened Strings
  import opened Clock
  import opened AwsCredentials
  import opened Crypto

  const DefaultRegion := "us-east-1"
  const Algorithm := "AWS4-HMAC-SHA256"
  const Service := "s3"
  const ScopeTerminator := "aws4_request"
  const SignedHeaders := "host"
  const UnsignedPayload := "UNSIGNED-PAYLOAD"

  /** The parts of `urlparse(bucket_endpoint_url)` that the signer reads. */
  datatype ParsedUrl = ParsedUrl(scheme: string, netloc: string, path: string)

  /** The `ValueError` a batch call raises. */
  datatype SignError = EmptyObjectKey

  // ---------------------------------------------------------------------
  // Construction

  /** `urlunparse(parsed._replace(path="/"))` for an endpoint that has a network location. */
  function RootUrl(u: ParsedUrl): string
    requires u.netloc != ""
  {
    (if u.scheme == "" then "" else u.scheme + ":") + "//" + u.netloc + "/"
  }

  /** `endpoint_url`: the root URL without its trailing slashes. */
  function EndpointUrl(u: ParsedUrl): (r: string)
    requires u.netloc != ""
    ensures r == [] || r[|r| - 1] != '/'
    ensures '/' !in u.netloc ==> r == (if u.scheme == "" then "" else u.scheme + ":") + "//" + u.netloc
  {
    var base := (if u.scheme == "" then "" else u.scheme + ":") + "//" + u.netloc;
    assert RootUrl(u) == base + "/";
    if '/' !in u.netloc then
      assert base[|base| - 1] == u.netloc[|u.netloc| - 1];
      RStripOneMore(base, '/');
      RStrip(RootUrl(u), '/')
    else
      RStrip(RootUrl(u), '/')
  }

  /** `aws_region or "us-east-1"`. */
  function RegionOrDefault(awsRegion: Option<string>): (r: string)
    ensures r != ""
    ensures IsTruthy(awsRegion) ==> r == awsRegion.value
    ensures !IsTruthy(awsRegion) ==> r == DefaultRegion
  {
    if IsTruthy(awsRegion) then awsRegion.value else DefaultRegion
  }

  /**
   * What `from_boto3_client` and `from_aiobotocore_client` keep of a URL the
   * SDK presigned for a dummy key: everything before the key's first
   * occurrence; None where `str.index` raises.
   */
  function EndpointBeforeDummyKey(dummyUrl: string, dummyKey: string): (r: Option<string>)
    ensures r.Some? ==> |r.value| + |dummyKey| <= |dummyUrl|
                        && dummyUrl[..|r.value| + |dummyKey|] == r.value + dummyKey
    ensures r.Some? ==> forall j :: 0 <= j < |r.value| ==> !OccursAt(dummyUrl, dummyKey, j)
    ensures r.None? <==> forall j :: !OccursAt(dummyUrl, dummyKey, j)
  {
    match IndexOf(dummyUrl, dummyKey)
    case None => None
    case Some(i) =>
      assert dummyUrl[..i + |dummyKey|] == dummyUrl[..i] + dummyUrl[i..i + |dummyKey|];
      Some(dummyUrl[..i])
  }

  // ---------------------------------------------------------------------
  // Per-call material

  /** `{datestamp}/{region}/s3/aws4_request`. */
  function CredentialScope(datestamp: string, region: string): string {
    datestamp + "/" + region + "/" + Service + "/" + ScopeTerminator
  }

  /** `_derive_signing_key`: four chained HMACs, each keyed by the previous output. */
  function DeriveSigningKey(hs: HashSuite, key: seq<byte>, datestamp: string, region: string, service: string): Digest {
    var kDate := hs.hmacSha256(Encode("AWS4") + key, Encode(datestamp));
    var kRegion := hs.hmacSha256(kDate, Encode(region));
    var kService := hs.hmacSha256(kRegion, Encode(service));
    hs.hmacSha256(kService, Encode(ScopeTerminator))
  }

  /** HMAC-keys a chain through `parts`, each step keyed by the previous output. */
  function HmacChain(hs: HashSuite, key: seq<byte>, parts: seq<string>): seq<byte>
    decreases |parts|
  {
    if parts == [] then key else HmacChain(hs, hs.hmacSha256(key, Encode(parts[0])), parts[1..])
  }

  /** The credential scope splits back into its four components. */
  lemma ScopeComponents(datestamp: string, region: string)
    requires '/' !in datestamp && '/' !in region
    ensures Split(CredentialScope(datestamp, region), '/') == [datestamp, region, Service, ScopeTerminator]
  {
    var parts := [datestamp, region, Service, ScopeTerminator];
    assert Join(parts[3..], '/') == ScopeTerminator;
    assert Join(parts[2..], '/') == Service + "/" + ScopeTerminator;
    assert Join(parts[1..], '/') == region + "/" + Service + "/" + ScopeTerminator;
    assert Join(parts, '/') == CredentialScope(datestamp, region);
    SplitJoin(parts, '/');
  }

  /**
   * The signing key is the HMAC chain over exactly the components of the
   * credential scope, so the key and the scope sent in the URL always agree.
   */
  lemma SigningKeyFollowsScope(hs: HashSuite, secret: string, datestamp: string, region: string)
    requires '/' !in datestamp && '/' !in region
    ensures DeriveSigningKey(hs, Encode(secret), datestamp, region, Service)
            == HmacChain(hs, Encode("AWS4" + secret), Split(CredentialScope(datestamp, region), '/'))
  {
    ScopeComponents(datestamp, region);
    EncodeAppend("AWS4", secret);
    var k0 := Encode("AWS4" + secret);
    var k1 := hs.hmacSha256(k0, Encode(datestamp));
    var k2 := hs.hmacSha256(k1, Encode(region));
    var k3 := hs.hmacSha256(k2, Encode(Service));
    var k4 := hs.hmacSha256(k3, Encode(ScopeTerminator));
    assert HmacChain(hs, k4, []) == k4;
    assert HmacChain(hs, k3, [ScopeTerminator]) == k4;
    assert HmacChain(hs, k2, [Service, ScopeTerminator]) == k4;
    assert HmacChain(hs, k1, [region, Service, ScopeTerminator]) == k4;
  }

  function AlgorithmParam(): string { "X-Amz-Algorithm=" + Algorithm }
  function CredentialParam(v: string): string { "X-Amz-Credential=" + v }
  function DateParam(v: string): string { "X-Amz-Date=" + v }
  function ExpiresParam(v: string): string { "X-Amz-Expires=" + v }
  function SignedHeadersParam(): string { "X-Amz-SignedHeaders=" + SignedHeaders }
  function SecurityTokenParam(v: string): string { "X-Amz-Security-Token=" + v }
  function SignatureParam(v: string): string { "X-Amz-Signature=" + v }

  /** `quote(f"{access_key}/{credential_scope}", safe="~")`. */
  function EncodedCredential(creds: Credentials, datestamp: string, region: string): string {
    Quote(creds.accessKey + "/" + CredentialScope(datestamp, region), "~")
  }

  /** `canonical_querystring_template_parts` as built, before sorting. */
  function TemplateParts(creds: Credentials, datestamp: string, amzDate: string, region: string, expiresIn: int): seq<string> {
    var base := [AlgorithmParam(), CredentialParam(EncodedCredential(creds, datestamp, region)),
                 DateParam(amzDate), ExpiresParam(DecimalString(expiresIn)), SignedHeadersParam()];
    if creds.WithToken? then base + [SecurityTokenParam(Quote(creds.sessionToken, "~"))] else base
  }

  /** The canonical query string shared by every URL of a call: the sorted parts joined by `&`. */
  function QueryTemplate(creds: Credentials, datestamp: string, amzDate: string, region: string, expiresIn: int): string {
    Join(Sort(TemplateParts(creds, datestamp, amzDate, region, expiresIn)), '&')
  }

  /**
   * The order `sorted()` puts the parameters in, spelled out: the names decide
   * it, and `X-Amz-Security-Token` sorts before `X-Amz-SignedHeaders`.
   */
  function OrderedParts(creds: Credentials, datestamp: string, amzDate: string, region: string, expiresIn: int): seq<string> {
    var cred := CredentialParam(EncodedCredential(creds, datestamp, region));
    var date := DateParam(amzDate);
    var expires := ExpiresParam(DecimalString(expiresIn));
    if creds.WithToken? then
      [AlgorithmParam(), cred, date, expires, SecurityTokenParam(Quote(creds.sessionToken, "~")), SignedHeadersParam()]
    else
      [AlgorithmParam(), cred, date, expires, SignedHeadersParam()]
  }

  lemma OrderedPartsSorted(creds: Credentials, datestamp: string, amzDate: string, region: string, expiresIn: int)
    ensures IsSorted(OrderedParts(creds, datestamp, amzDate, region, expiresIn))
  {
    var o := OrderedParts(creds, datestamp, amzDate, region, expiresIn);
    var cred := EncodedCredential(creds, datestamp, region);
    var expires := DecimalString(expiresIn);
    AlgorithmBeforeCredential(cred);
    CredentialBeforeDate(cred, amzDate);
    DateBeforeExpires(amzDate, expires);
    if creds.WithToken? {
      var token := Quote(creds.sessionToken, "~");
      ExpiresBeforeSecurityToken(expires, token);
      SecurityTokenBeforeSignedHeaders(token);
    } else {
      ExpiresBeforeSignedHeaders(expires);
    }
    SortedByNeighbours(o);
  }

  // Each parameter sorts before the next by its name alone, whatever the values.

  lemma AlgorithmBeforeCredential(cred: string)
    ensures LessEq(AlgorithmParam(), CredentialParam(cred))
  {
    LessAtPosition("X-Amz-Algorithm=", "X-Amz-Credential=", Algorithm, cred, 6);
  }

  lemma CredentialBeforeDate(cred: string, amzDate: string)
    ensures LessEq(CredentialParam(cred), DateParam(amzDate))
  {
    LessAtPosition("X-Amz-Credential=", "X-Amz-Date=", cred, amzDate, 6);
  }

  lemma DateBeforeExpires(amzDate: string, expires: string)
    ensures LessEq(DateParam(amzDate), ExpiresParam(expires))
  {
    LessAtPosition("X-Amz-Date=", "X-Amz-Expires=", amzDate, expires, 6);
  }

  lemma ExpiresBeforeSecurityToken(expires: string, token: string)
    ensures LessEq(ExpiresParam(expires), SecurityTokenParam(token))
  {
    LessAtPosition("X-Amz-Expires=", "X-Amz-Security-Token=", expires, token, 6);
  }

  lemma SecurityTokenBeforeSignedHeaders(token: string)
    ensures LessEq(SecurityTokenParam(token), SignedHeadersParam())
  {
    LessAtPosition("X-Amz-Security-Token=", "X-Amz-SignedHeaders=", token, SignedHeaders, 7);
  }

  lemma ExpiresBeforeSignedHeaders(expires: string)
    ensures LessEq(ExpiresParam(expires), SignedHeadersParam())
  {
    LessAtPosition("X-Amz-Expires=", "X-Amz-SignedHeaders=", expires, SignedHeaders, 6);
  }

  /** `sorted(canonical_querystring_template_parts)` is exactly the order spelled out above. */
  lemma SortedTemplateParts(creds: Credentials, datestamp: string, amzDate: string, region: string, expiresIn: int)
    ensures Sort(TemplateParts(creds, datestamp, amzDate, region, expiresIn))
            == OrderedParts(creds, datestamp, amzDate, region, expiresIn)
  {
    var parts := TemplateParts(creds, datestamp, amzDate, region, expiresIn);
    var o := OrderedParts(creds, datestamp, amzDate, region, expiresIn);
    OrderedPartsSorted(creds, datestamp, amzDate, region, expiresIn);
    if creds.WithToken? {
      LastTwoSwapped(o[0], o[1], o[2], o[3], o[5], o[4]);
    }
    SortOfOrdered(parts, o);
  }

  /** The token parameter is appended last but sorts last but one: the two sets of parameters agree. */
  lemma LastTwoSwapped(a: string, b: string, c: string, d: string, e: string, f: string)
    ensures multiset([a, b, c, d, e, f]) == multiset([a, b, c, d, f, e])
  {
  }

  /** `sorted` of any arrangement of the elements of a sorted list gives that list. */
  lemma SortOfOrdered(s: seq<string>, o: seq<string>)
    requires IsSorted(o) && multiset(s) == multiset(o)
    ensures Sort(s) == o
  {
    SortedUnique(Sort(s), o);
  }

  /** `quote` with `~` as the only extra safe character encodes `/` as `%2F`. */
  lemma QuoteSlashSeparated(a: string, b: string)
    ensures Quote(a + "/" + b, "~") == Quote(a, "~") + "%2F" + Quote(b, "~")
  {
    QuoteIsPerCharacter(a + "/" + b, "~");
    QuoteIsPerCharacter(a, "~");
    QuoteIsPerCharacter(b, "~");
    QuoteCharsAppend(a + "/", b, "~");
    QuoteCharsAppend(a, "/", "~");
    SlashEscape();
  }

  /** `/` alone, with only `~` extra-safe, is `%2F`. */
  lemma SlashEscape()
    ensures QuoteChars("/", "~") == "%2F"
  {
    QuoteCharUnsafeAscii('/', "~");
    assert QuoteChars("/", "~") == QuoteChar('/', "~") + QuoteChars("", "~");
    assert UpperDigit(2) == '2' && UpperDigit(15) == 'F';
  }

  lemma QuoteSafeSlashSafe(a: string, b: string)
    requires AllSafe(a, "~") && AllSafe(b, "~")
    ensures Quote(a + "/" + b, "~") == a + "%2F" + b
  {
    QuoteSlashSeparated(a, b);
    QuoteSafeString(a, "~");
    QuoteSafeString(b, "~");
  }

  /** The credential scope, quoted: its `/` separators become `%2F`. */
  lemma QuotedScope(datestamp: string, region: string)
    requires AllDigits(datestamp)
    ensures Quote(CredentialScope(datestamp, region), "~")
            == datestamp + "%2F" + Quote(region, "~") + "%2F" + Service + "%2F" + ScopeTerminator
  {
    assert AllSafe(Service, "~") && AllSafe(ScopeTerminator, "~");
    QuotedSlashPath(datestamp, region, Service, ScopeTerminator);
  }

  /** A `/`-separated path of a digit string, any text and two safe words, quoted with `~` safe. */
  lemma QuotedSlashPath(digits: string, text: string, word1: string, word2: string)
    requires AllDigits(digits) && AllSafe(word1, "~") && AllSafe(word2, "~")
    ensures Quote(digits + "/" + text + "/" + word1 + "/" + word2, "~")
            == digits + "%2F" + Quote(text, "~") + "%2F" + word1 + "%2F" + word2
  {
    var tail := word1 + "/" + word2;
    var rest := text + "/" + tail;
    Reassociate(digits, "/", text, word1, word2);
    QuoteSlashSeparated(digits, rest);
    DigitsQuoteToThemselves(digits);
    QuoteSlashSeparated(text, tail);
    QuoteSafeSlashSafe(word1, word2);
    assert Quote(digits + "/" + rest, "~") == digits + "%2F" + (Quote(text, "~") + "%2F" + (word1 + "%2F" + word2));
    Reassociate(digits, "%2F", Quote(text, "~"), word1, word2);
  }

  /**
   * Regrouping a concatenation of four separated parts. Kept as a lemma so
   * the regrouping is proved apart from the quoting facts around its callers.
   */
  lemma Reassociate(a: string, sep: string, b: string, c: string, d: string)
    ensures a + sep + (b + sep + (c + sep + d)) == a + sep + b + sep + c + sep + d
  {
  }

  /** Decimal digits are unreserved, so a datestamp quotes to itself. */
  lemma DigitsQuoteToThemselves(s: string)
    requires AllDigits(s)
    ensures Quote(s, "~") == s
  {
    assert AllSafe(s, "~");
    QuoteSafeString(s, "~");
  }

  /**
   * The `X-Amz-Credential` value: the access key and the scope components,
   * each quoted, separated by `%2F`.
   */
  lemma EncodedCredentialShape(creds: Credentials, datestamp: string, region: string)
    requires AllDigits(datestamp)
    ensures EncodedCredential(creds, datestamp, region)
            == Quote(creds.accessKey, "~") + "%2F" + datestamp + "%2F" + Quote(region, "~")
               + "%2F" + Service + "%2F" + ScopeTerminator
  {
    QuoteSlashSeparated(creds.accessKey, CredentialScope(datestamp, region));
    QuotedScope(datestamp, region);
    RegroupScope(Quote(creds.accessKey, "~"), "%2F", datestamp, Quote(region, "~"), Service, ScopeTerminator);
  }

  /** Regrouping a prefix in front of four separated parts, proved apart like `Reassociate`. */
  lemma RegroupScope(p: string, sep: string, a: string, b: string, c: string, d: string)
    ensures p + sep + (a + sep + b + sep + c + sep + d) == p + sep + a + sep + b + sep + c + sep + d
  {
  }

  lemma QuoteExcludes(s: string, safe: string, c: char)
    requires c != '%' && !IsSafeChar(c, safe)
    ensures c !in Quote(s, safe)
  {
  }

  lemma DecimalStringExcludes(i: int, c: char)
    requires c != '-' && !IsDigit(c)
    ensures c !in DecimalString(i)
  {
    var s := DecimalString(i);
    if i < 0 {
      assert forall k :: 1 <= k < |s| ==> s[k] == Digits(-i)[k - 1];
    }
  }

  /**
   * A URL of the shape the signer builds splits at its one `?` into the path
   * and the query, and the query at `&` into the parameters followed by the
   * signature.
   */
  lemma QuerySplits(path: string, parts: seq<string>, sig: string)
    requires parts != [] && '?' !in path && IsLowerHex(sig)
    requires forall i :: 0 <= i < |parts| ==> '&' !in parts[i] && '?' !in parts[i]
    ensures Split(path + "?" + Join(parts, '&') + "&" + SignatureParam(sig), '?')
            == [path, Join(parts, '&') + "&" + SignatureParam(sig)]
    ensures Split(Join(parts, '&') + "&" + SignatureParam(sig), '&') == parts + [SignatureParam(sig)]
  {
    var sigParam := SignatureParam(sig);
    SignatureParamExcludes(sig);
    var query := Join(parts, '&') + "&" + sigParam;
    JoinAppend(parts, sigParam, '&');
    SplitJoin(parts + [sigParam], '&');
    JoinExcludes(parts + [sigParam], '&', '?');
    SplitAtSeparator(path, query, '?');
    SplitNoSeparator(query, '?');
    Regroup(path, "?", Join(parts, '&'), "&", sigParam);
  }

  /** `a + b + c + d + e` regrouped as `a + b + (c + d + e)`, proved apart like `Reassociate`. */
  lemma Regroup(a: string, b: string, c: string, d: string, e: string)
    ensures a + b + c + d + e == a + b + (c + d + e)
  {
  }

  /** The signature parameter holds neither `&` nor `?`. */
  lemma SignatureParamExcludes(sig: string)
    requires IsLowerHex(sig)
    ensures '&' !in SignatureParam(sig) && '?' !in SignatureParam(sig)
  {
    assert forall i :: 0 <= i < |sig| ==> IsLowerHexDigit(sig[i]);
  }

  /** The parameters carry `X-Amz-Security-Token` exactly for credentials with a session token. */
  lemma TokenParamIff(creds: Credentials, datestamp: string, amzDate: string, region: string, expiresIn: int)
    ensures (exists v :: SecurityTokenParam(v) in OrderedParts(creds, datestamp, amzDate, region, expiresIn))
            <==> creds.WithToken?
    ensures creds.WithToken? ==>
              SecurityTokenParam(Quote(creds.sessionToken, "~")) in OrderedParts(creds, datestamp, amzDate, region, expiresIn)
  {
    var o := OrderedParts(creds, datestamp, amzDate, region, expiresIn);
    if creds.WithToken? {
      assert SecurityTokenParam(Quote(creds.sessionToken, "~")) == o[4];
    } else {
      var expires := DecimalString(expiresIn);
      forall v | true
        ensures SecurityTokenParam(v) !in o
      {
        NoTokenAmongPlainParts(v, EncodedCredential(creds, datestamp, region), amzDate, expires);
      }
    }
  }

  /** Without a token, no parameter is an `X-Amz-Security-Token` one: the names differ. */
  lemma NoTokenAmongPlainParts(v: string, cred: string, amzDate: string, expires: string)
    ensures SecurityTokenParam(v)
            !in [AlgorithmParam(), CredentialParam(cred), DateParam(amzDate), ExpiresParam(expires), SignedHeadersParam()]
  {
    var p := SecurityTokenParam(v);
    assert p[6] == 'S' && p[7] == 'e';
    assert AlgorithmParam()[6] == 'A' && CredentialParam(cred)[6] == 'C';
    assert DateParam(amzDate)[6] == 'D' && ExpiresParam(expires)[6] == 'E';
    assert SignedHeadersParam()[7] == 'i';
  }

  /** Characters no template parameter holds: the separators of a URL and its lines, and non-ASCII. */
  predicate NeverInParameters(c: char) {
    c == '&' || c == '?' || c == '\n' || c as int >= 0x80
  }

  /** The parameter names and fixed values hold none of those characters. */
  lemma FixedTextExcludes(c: char)
    requires NeverInParameters(c)
    ensures c !in AlgorithmParam() && c !in SignedHeadersParam()
    ensures c !in "X-Amz-Credential=" && c !in "X-Amz-Date=" && c !in "X-Amz-Expires=" && c !in "X-Amz-Security-Token="
  {
    FixedValuesExclude(c);
    ParameterNamesExclude(c);
  }

  // `FixedValuesExclude` and `ParameterNamesExclude` split `FixedTextExcludes`
  // only to keep each solver query small; the empty branches of their case
  // splits serve the same purpose and prove nothing of their own.

  lemma FixedValuesExclude(c: char)
    requires NeverInParameters(c)
    ensures c !in AlgorithmParam() && c !in SignedHeadersParam()
  {
    if c == '&' {
    } else if c == '?' {
    } else if c == '\n' {
    } else {
    }
  }

  lemma ParameterNamesExclude(c: char)
    requires NeverInParameters(c)
    ensures c !in "X-Amz-Credential=" && c !in "X-Amz-Date=" && c !in "X-Amz-Expires=" && c !in "X-Amz-Security-Token="
  {
    if c == '&' {
    } else if c == '?' {
    } else if c == '\n' {
    } else {
    }
  }

  /** No template parameter contains `&`, `?`, a line break or a non-ASCII character. */
  lemma OrderedPartsExclude(creds: Credentials, datestamp: string, amzDate: string, region: string, expiresIn: int, c: char)
    requires NeverInParameters(c)
    requires c !in amzDate
    ensures forall i :: 0 <= i < |OrderedParts(creds, datestamp, amzDate, region, expiresIn)|
                        ==> c !in OrderedParts(creds, datestamp, amzDate, region, expiresIn)[i]
  {
    var o := OrderedParts(creds, datestamp, amzDate, region, expiresIn);
    FixedTextExcludes(c);
    assert c !in AlgorithmParam() && c !in SignedHeadersParam();
    var cred := EncodedCredential(creds, datestamp, region);
    assert c !in cred by {
      QuoteExcludes(creds.accessKey + "/" + CredentialScope(datestamp, region), "~", c);
    }
    assert c !in CredentialParam(cred);
    assert c !in DateParam(amzDate);
    var expires := DecimalString(expiresIn);
    assert c !in expires by {
      DecimalStringExcludes(expiresIn, c);
    }
    assert c !in ExpiresParam(expires);
    if creds.WithToken? {
      var token := Quote(creds.sessionToken, "~");
      assert c !in token by {
        QuoteExcludes(creds.sessionToken, "~", c);
      }
      assert c !in SecurityTokenParam(token);
    }
  }

  // ---------------------------------------------------------------------
  // Per-key strings

  /** `quote(object_key, safe="/~")`. */
  function EncodeKey(objectKey: string): string {
    Quote(objectKey, "/~")
  }

  /** An encoded key never holds a `?`, so it cannot run into the query string. */
  lemma EncodeKeyHasNoQuestionMark(objectKey: string)
    ensures '?' !in EncodeKey(objectKey)
  {
    QuoteExcludes(objectKey, "/~", '?');
  }

  /** The encoded key before a URL's `?` determines the key. */
  lemma KeyBeforeQuery(key1: string, key2: string, tail1: string, tail2: string)
    requires EncodeKey(key1) + "?" + tail1 == EncodeKey(key2) + "?" + tail2
    ensures key1 == key2
  {
    EncodeKeyHasNoQuestionMark(key1);
    EncodeKeyHasNoQuestionMark(key2);
    SameBeforeSeparator(EncodeKey(key1), EncodeKey(key2), tail1, tail2, '?');
    QuoteInjective(key1, key2, "/~");
  }

  /** The six lines of the canonical request; the header line carries its own trailing newline. */
  function CanonicalRequest(canonicalUri: string, template: string, bucketHost: string): string {
    Join(["GET", canonicalUri, template, "host:" + bucketHost + "\n", SignedHeaders, UnsignedPayload], '\n')
  }

  /** The four lines of the string to sign. */
  function StringToSign(amzDate: string, credentialScope: string, requestHash: string): string {
    Join([Algorithm, amzDate, credentialScope, requestHash], '\n')
  }

  /** `_hmac_hex(signing_key, string_to_sign.encode())`. */
  function Signature(hs: HashSuite, signingKey: seq<byte>, stringToSign: string): (r: string)
    ensures |r| == 64 && IsLowerHex(r)
  {
    HexDigest(hs.hmacSha256(signingKey, Encode(stringToSign)))
  }

  /**
   * The canonical request spelled out: an empty line ends the canonical
   * headers block, because the header line carries its own newline.
   */
  lemma CanonicalRequestText(canonicalUri: string, template: string, bucketHost: string)
    ensures CanonicalRequest(canonicalUri, template, bucketHost)
            == "GET" + "\n" + canonicalUri + "\n" + template + "\n" + ("host:" + bucketHost + "\n") + "\n"
               + SignedHeaders + "\n" + UnsignedPayload
  {
    JoinSix("GET", canonicalUri, template, "host:" + bucketHost + "\n", SignedHeaders, UnsignedPayload, '\n');
  }

  /**
   * Splitting the canonical request at line breaks gives seven lines: the
   * header line's own newline and the separator after it leave an empty line.
   */
  lemma CanonicalRequestLines(canonicalUri: string, template: string, bucketHost: string)
    requires '\n' !in canonicalUri && '\n' !in template && '\n' !in bucketHost
    ensures Split(CanonicalRequest(canonicalUri, template, bucketHost), '\n')
            == ["GET", canonicalUri, template, "host:" + bucketHost, "", SignedHeaders, UnsignedPayload]
  {
    var lines := ["GET", canonicalUri, template, "host:" + bucketHost, "", SignedHeaders, UnsignedPayload];
    CanonicalRequestText(canonicalUri, template, bucketHost);
    JoinSeven("GET", canonicalUri, template, "host:" + bucketHost, "", SignedHeaders, UnsignedPayload, '\n');
    var x, h := "GET" + "\n" + canonicalUri + "\n" + template, "host:" + bucketHost;
    assert x + "\n" + (h + "\n") + "\n" + SignedHeaders + "\n" + UnsignedPayload
        == x + "\n" + h + "\n" + "" + "\n" + SignedHeaders + "\n" + UnsignedPayload;
    assert Join(lines, '\n') == CanonicalRequest(canonicalUri, template, bucketHost);
    SplitJoin(lines, '\n');
  }

  lemma StringToSignLines(amzDate: string, credentialScope: string, requestHash: string)
    requires '\n' !in amzDate && '\n' !in credentialScope && '\n' !in requestHash
    ensures Split(StringToSign(amzDate, credentialScope, requestHash), '\n')
            == [Algorithm, amzDate, credentialScope, requestHash]
  {
    SplitJoin([Algorithm, amzDate, credentialScope, requestHash], '\n');
  }

  /** A key with a space: the space becomes `%20`, the rest stays. */
  lemma EncodeKeySpaceExample(objectKey: string)
    requires objectKey == "hello world.txt"
    ensures EncodeKey(objectKey) == "hello%20world.txt"
  {
    assert AllSafe("hello", "/~") && AllSafe("world.txt", "/~");
    SpaceBetweenSafeText("hello", "world.txt");
    assert objectKey == "hello" + " " + "world.txt";
    assert "hello%20world.txt" == "hello" + "%20" + "world.txt";
  }

  /** A space between text that needs no quoting becomes `%20` in a key. */
  lemma SpaceBetweenSafeText(a: string, b: string)
    requires AllSafe(a, "/~") && AllSafe(b, "/~")
    ensures EncodeKey(a + " " + b) == a + "%20" + b
  {
    assert !IsSafeChar(' ', "/~");
    QuoteOneEscape(a, ' ', b, "/~");
    assert UpperDigit(' ' as int / 16) == '2' && UpperDigit(' ' as int % 16) == '0';
  }

  /** Keys with `/` and `~` are left as they are. */
  lemma EncodeKeySafeExamples(objectKey: string)
    requires objectKey == "my/image.png" || objectKey == "hello~world.txt"
    ensures EncodeKey(objectKey) == objectKey
  {
    if objectKey == "my/image.png" {
      assert AllSafe("my/image.png", "/~");
    } else {
      assert AllSafe("hello~world.txt", "/~");
    }
    QuoteSafeString(objectKey, "/~");
  }

  /** Path-style endpoints keep the bucket in the prefix; virtual-hosted ones have none. */
  lemma CanonicalUriPrefixExamples()
    ensures RStrip("/my-bucket/", '/') == "/my-bucket"
    ensures RStrip("/", '/') == ""
  {
    assert "/my-bucket/"[..10] == "/my-bucket";
    assert "/"[..0] == "";
  }

  // ---------------------------------------------------------------------
  // The signer

  class FastS3UrlSigner {
    const canonicalUriPrefix: string
    const endpointUrl: string
    const bucketHost: string
    const region: string
    const credentials: Credentials

    /** Splits the bucket endpoint once; nothing here changes afterwards. */
    constructor(bucketEndpointUrl: ParsedUrl, credentials: Credentials, awsRegion: Option<string>)
      requires bucketEndpointUrl.netloc != ""
      ensures canonicalUriPrefix == RStrip(bucketEndpointUrl.path, '/')
      ensures endpointUrl == EndpointUrl(bucketEndpointUrl)
      ensures bucketHost == bucketEndpointUrl.netloc
      ensures region == RegionOrDefault(awsRegion)
      ensures this.credentials == credentials
    {
      canonicalUriPrefix := RStrip(bucketEndpointUrl.path, '/');
      endpointUrl := EndpointUrl(bucketEndpointUrl);
      bucketHost := bucketEndpointUrl.netloc;
      region := RegionOrDefault(awsRegion);
      this.credentials := credentials;
    }

    /** The query-string template of a call at `now`. */
    function Template(expiresIn: int, now: Timestamp): string
      requires now.Valid()
    {
      QueryTemplate(credentials, Datestamp(now), AmzDate(now), region, expiresIn)
    }

    /** The URL path for a key: the prefix, a slash, the encoded key. */
    function CanonicalUri(objectKey: string): string {
      canonicalUriPrefix + "/" + EncodeKey(objectKey)
    }

    /**
     * The per-key steps of a call, given the material the call computed
     * once: the signing key, `X-Amz-Date`, the credential scope and the
     * query-string template.
     */
    function SignedUrl(hs: HashSuite, signingKey: seq<byte>, amzDate: string, credentialScope: string,
                       template: string, objectKey: string): string
    {
      endpointUrl + CanonicalUri(objectKey) + "?" + template + "&"
        + SignatureParam(KeySignature(hs, signingKey, amzDate, credentialScope, template, objectKey))
    }

    /** The signature of one key's canonical request, under the call's material. */
    function KeySignature(hs: HashSuite, signingKey: seq<byte>, amzDate: string, credentialScope: string,
                          template: string, objectKey: string): (r: string)
      ensures |r| == 64 && IsLowerHex(r)
    {
      var canonicalRequest := CanonicalRequest(CanonicalUri(objectKey), template, bucketHost);
      Signature(hs, signingKey, StringToSign(amzDate, credentialScope, HexDigest(hs.sha256(Encode(canonicalRequest)))))
    }

    /** The signing key of a call at `now`. */
    function CallSigningKey(hs: HashSuite, now: Timestamp): Digest
      requires now.Valid()
    {
      DeriveSigningKey(hs, Encode(credentials.secretKey), Datestamp(now), region, Service)
    }

    /** The presigned URL a call at `now` produces for one key. */
    function PresignedUrl(hs: HashSuite, objectKey: string, expiresIn: int, now: Timestamp): string
      requires now.Valid()
    {
      SignedUrl(hs, CallSigningKey(hs, now), AmzDate(now), CredentialScope(Datestamp(now), region),
                Template(expiresIn, now), objectKey)
    }

    /** The `X-Amz-Signature` value of the URL a call at `now` produces for one key. */
    function UrlSignature(hs: HashSuite, objectKey: string, expiresIn: int, now: Timestamp): (r: string)
      requires now.Valid()
      ensures |r| == 64 && IsLowerHex(r)
    {
      KeySignature(hs, CallSigningKey(hs, now), AmzDate(now), CredentialScope(Datestamp(now), region),
                   Template(expiresIn, now), objectKey)
    }

    /**
     * The loop over the keys in `generate_presigned_get_object_urls`: each
     * key is encoded, its canonical request hashed, its string to sign
     * signed with the key derived once for the call, and its URL built
     * on the shared template.
     */
    method SignKeys(hs: HashSuite, signingKey: seq<byte>, amzDate: string, credentialScope: string,
                    template: string, objectKeys: seq<string>)
      returns (signedUrls: seq<string>)
      ensures |signedUrls| == |objectKeys|
      ensures forall i :: 0 <= i < |objectKeys| ==>
                signedUrls[i] == SignedUrl(hs, signingKey, amzDate, credentialScope, template, objectKeys[i])
    {
      signedUrls := [];
      for j := 0 to |objectKeys|
        invariant |signedUrls| == j
        invariant forall i :: 0 <= i < j ==>
                    signedUrls[i] == SignedUrl(hs, signingKey, amzDate, credentialScope, template, objectKeys[i])
      {
        var encodedKey := EncodeKey(objectKeys[j]);
        var canonicalUri := canonicalUriPrefix + "/" + encodedKey;
        var canonicalRequest := CanonicalRequest(canonicalUri, template, bucketHost);
        var requestHash := HexDigest(hs.sha256(Encode(canonicalRequest)));
        var stringToSign := StringToSign(amzDate, credentialScope, requestHash);
        var signature := Signature(hs, signingKey, stringToSign);
        signedUrls := signedUrls + [endpointUrl + canonicalUri + "?" + template + "&" + SignatureParam(signature)];
      }
    }

    /**
     * `generate_presigned_get_object_urls`: an empty list gives an empty list;
     * an empty key fails the whole call; otherwise one URL per key, in order.
     */
    method GeneratePresignedGetObjectUrls(hs: HashSuite, objectKeys: seq<string>, expiresIn: int, now: Timestamp)
      returns (r: Result<seq<string>, SignError>)
      requires now.Valid()
      ensures objectKeys == [] ==> r == Success([])
      ensures r.Failure? <==> "" in objectKeys
      ensures r.Success? ==> |r.value| == |objectKeys|
      ensures r.Success? ==> forall i :: 0 <= i < |objectKeys| ==> r.value[i] == PresignedUrl(hs, objectKeys[i], expiresIn, now)
    {
      if objectKeys == [] {
        return Success([]);
      }
      if "" in objectKeys {
        return Failure(EmptyObjectKey);
      }

      var datestamp := Datestamp(now);
      var amzDate := AmzDate(now);
      var signingKey := DeriveSigningKey(hs, Encode(credentials.secretKey), datestamp, region, Service);
      assert signingKey == CallSigningKey(hs, now);
      var credentialScope := CredentialScope(datestamp, region);
      var encodedCredential := Quote(credentials.accessKey + "/" + credentialScope, "~");

      var parts := [AlgorithmParam(), CredentialParam(encodedCredential), DateParam(amzDate),
                    ExpiresParam(DecimalString(expiresIn)), SignedHeadersParam()];
      if credentials.WithToken? {
        parts := parts + [SecurityTokenParam(Quote(credentials.sessionToken, "~"))];
      }
      assert parts == TemplateParts(credentials, datestamp, amzDate, region, expiresIn);
      var template := Join(Sort(parts), '&');
      assert template == Template(expiresIn, now);

      var signedUrls := SignKeys(hs, signingKey, amzDate, credentialScope, template, objectKeys);
      return Success(signedUrls);
    }

    /** The template splits back into the parameters, in sorted order. */
    lemma TemplateParameters(expiresIn: int, now: Timestamp)
      requires now.Valid()
      ensures Split(Template(expiresIn, now), '&') == OrderedParts(credentials, Datestamp(now), AmzDate(now), region, expiresIn)
    {
      var datestamp, amzDate := Datestamp(now), AmzDate(now);
      SortedTemplateParts(credentials, datestamp, amzDate, region, expiresIn);
      AmzDateExcludes(now, '&');
      OrderedPartsExclude(credentials, datestamp, amzDate, region, expiresIn, '&');
      SplitJoin(OrderedParts(credentials, datestamp, amzDate, region, expiresIn), '&');
    }

    /**
     * `X-Amz-Security-Token` is among the parameters exactly when the
     * credentials carry a session token, and its value is the quoted token.
     */
    lemma SecurityTokenIff(expiresIn: int, now: Timestamp)
      requires now.Valid()
      ensures (exists v :: SecurityTokenParam(v) in Split(Template(expiresIn, now), '&')) <==> credentials.WithToken?
      ensures credentials.WithToken? ==>
                SecurityTokenParam(Quote(credentials.sessionToken, "~")) in Split(Template(expiresIn, now), '&')
    {
      TemplateParameters(expiresIn, now);
      TokenParamIff(credentials, Datestamp(now), AmzDate(now), region, expiresIn);
    }

    /**
     * A URL reads back into its parts: before the `?`, the endpoint and the
     * key's path; after it, the sorted template parameters followed by
     * `X-Amz-Signature`, which is never part of the sort.
     */
    lemma UrlParameters(hs: HashSuite, objectKey: string, expiresIn: int, now: Timestamp)
      requires now.Valid()
      requires '?' !in endpointUrl && '?' !in canonicalUriPrefix
      ensures |Split(PresignedUrl(hs, objectKey, expiresIn, now), '?')| == 2
      ensures Split(PresignedUrl(hs, objectKey, expiresIn, now), '?')[0] == endpointUrl + CanonicalUri(objectKey)
      ensures Split(Split(PresignedUrl(hs, objectKey, expiresIn, now), '?')[1], '&')
              == OrderedParts(credentials, Datestamp(now), AmzDate(now), region, expiresIn)
                 + [SignatureParam(UrlSignature(hs, objectKey, expiresIn, now))]
    {
      var o := OrderedParts(credentials, Datestamp(now), AmzDate(now), region, expiresIn);
      var sig := UrlSignature(hs, objectKey, expiresIn, now);
      var path := endpointUrl + CanonicalUri(objectKey);
      SortedTemplateParts(credentials, Datestamp(now), AmzDate(now), region, expiresIn);
      assert PresignedUrl(hs, objectKey, expiresIn, now) == path + "?" + Join(o, '&') + "&" + SignatureParam(sig);
      AmzDateExcludes(now, '&');
      AmzDateExcludes(now, '?');
      OrderedPartsExclude(credentials, Datestamp(now), AmzDate(now), region, expiresIn, '&');
      OrderedPartsExclude(credentials, Datestamp(now), AmzDate(now), region, expiresIn, '?');
      EncodeKeyHasNoQuestionMark(objectKey);
      QuerySplits(path, o, sig);
    }

    /** Different keys always get different URLs from one call. */
    lemma DistinctKeysDistinctUrls(hs: HashSuite, key1: string, key2: string, expiresIn: int, now: Timestamp)
      requires now.Valid()
      requires key1 != key2
      ensures PresignedUrl(hs, key1, expiresIn, now) != PresignedUrl(hs, key2, expiresIn, now)
    {
      SignedUrlsDiffer(hs, CallSigningKey(hs, now), AmzDate(now), CredentialScope(Datestamp(now), region),
                       Template(expiresIn, now), key1, key2);
    }

    /** The per-key URLs of one call's material differ for different keys. */
    lemma SignedUrlsDiffer(hs: HashSuite, signingKey: seq<byte>, amzDate: string, credentialScope: string,
                           template: string, key1: string, key2: string)
      requires key1 != key2
      ensures SignedUrl(hs, signingKey, amzDate, credentialScope, template, key1)
              != SignedUrl(hs, signingKey, amzDate, credentialScope, template, key2)
    {
      var head := endpointUrl + canonicalUriPrefix + "/";
      var tail1 := template + "&" + SignatureParam(KeySignature(hs, signingKey, amzDate, credentialScope, template, key1));
      var tail2 := template + "&" + SignatureParam(KeySignature(hs, signingKey, amzDate, credentialScope, template, key2));
      var url1 := SignedUrl(hs, signingKey, amzDate, credentialScope, template, key1);
      var url2 := SignedUrl(hs, signingKey, amzDate, credentialScope, template, key2);
      SignedUrlAroundKey(hs, signingKey, amzDate, credentialScope, template, key1);
      SignedUrlAroundKey(hs, signingKey, amzDate, credentialScope, template, key2);
      if url1 == url2 {
        assert EncodeKey(key1) + "?" + tail1 == url1[|head|..] == EncodeKey(key2) + "?" + tail2;
        KeyBeforeQuery(key1, key2, tail1, tail2);
      }
    }

    /** A per-key URL is a fixed head, the encoded key, `?` and a tail. */
    lemma SignedUrlAroundKey(hs: HashSuite, signingKey: seq<byte>, amzDate: string, credentialScope: string,
                             template: string, key: string)
      ensures SignedUrl(hs, signingKey, amzDate, credentialScope, template, key)
              == (endpointUrl + canonicalUriPrefix + "/")
                 + (EncodeKey(key) + "?" + (template + "&"
                    + SignatureParam(KeySignature(hs, signingKey, amzDate, credentialScope, template, key))))
    {
    }

    /** The query-string template is plain ASCII, whatever the key, region or token. */
    lemma TemplateIsAscii(expiresIn: int, now: Timestamp)
      requires now.Valid()
      ensures IsAscii(Template(expiresIn, now))
    {
      var o := OrderedParts(credentials, Datestamp(now), AmzDate(now), region, expiresIn);
      var t := Template(expiresIn, now);
      SortedTemplateParts(credentials, Datestamp(now), AmzDate(now), region, expiresIn);
      forall c: char | c as int >= 0x80
        ensures c !in t
      {
        AmzDateExcludes(now, c);
        OrderedPartsExclude(credentials, Datestamp(now), AmzDate(now), region, expiresIn, c);
        JoinExcludes(o, '&', c);
      }
      forall i | 0 <= i < |t|
        ensures t[i] as int < 0x80
      {
        assert t[i] in t;
      }
    }
  }
}
