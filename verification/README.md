# A verified model of fast-s3-url's presigned-URL signer

`fast_s3_url` builds AWS Signature Version 4 presigned GET URLs for S3
objects in bulk. It uses query-string authentication with an
`UNSIGNED-PAYLOAD` body hash, and `host` is the only signed header. A
`FastS3UrlSigner` splits its bucket endpoint once. Each call to
`generate_presigned_get_object_urls` then does two things:

- It computes, once per call, the date stamps, the signing key, the
  credential scope and the sorted query-string template.
- For each key, it percent-encodes the key, builds the canonical request
  and the string to sign, signs that string, and appends the URL.

This project models that core in Dafny:

- the signer as a class with `const` fields;
- the batch call as a method whose loop carries an invariant over the
  URLs produced so far;
- the string assembly as functions;
- the credential conversion of `fast_s3_url/util.py` as a function on a
  two-variant datatype.

The pure pieces the signer relies on are modelled in their own modules:

| module | what it models |
|---|---|
| `Utf8` | UTF-8 encoding, with a decoder that undoes it |
| `Quoting` | `urllib.parse.quote`, percent-encoding per sections 2.1 and 2.3 of RFC 3986 |
| `Strings` | `str.rstrip`, `"sep".join`, `sorted` on strings |
| `Clock` | the two `strftime` patterns and `str(int)` |
| `Hex` | lowercase hex rendering |

SHA-256 and HMAC-SHA256 are a parameter, `Crypto.HashSuite`. It holds two
functions that return 32-byte digests. Nothing else about them is assumed.

Beyond what each operation computes, the model proves these properties:

- **Results.** An empty list gives an empty list. An empty key fails the
  whole call. Otherwise the call returns one URL per key, in order, and
  the i-th URL depends only on the i-th key and the call's shared
  material.
- **Ordering.** The sorted template is exactly the parameter order spelled
  out in `S3Signer.OrderedParts`.
- **Security token.** `X-Amz-Security-Token` is present exactly for
  credentials that carry a token.
- **URL shape.** Every URL splits back into:
  - its path;
  - the key-independent template parameters;
  - a final `X-Amz-Signature` of 64 lowercase hex characters.
- **Distinct URLs.** Distinct keys get distinct URLs.
- **Signing key.** The signing key is the HMAC chain over exactly the
  components of the credential scope.
- **Encoding inverses.** Quoting and UTF-8 encoding have inverses, and the
  date formats parse back.

The code sorts the full `name=value` strings. `X-Amz-Security-Token`
first differs from `X-Amz-SignedHeaders` at its eighth character, where
`e` < `i`, so the token parameter comes before the signed-headers one
(`S3Signer.OrderedParts`, `S3Signer.SortedTemplateParts`).

## Model

| member | source | states |
|---|---|---|
| S3Signer.FastS3UrlSigner.constructor | fast_s3_url/s3_signer.py:51-58 | the prefix is the endpoint path with every trailing `/` stripped; the endpoint URL is scheme and netloc with no trailing `/`; the host is the netloc verbatim; the region defaults; the credentials are kept |
| Strings.RStrip | fast_s3_url/s3_signer.py:53 | `rstrip` gives a prefix of the input that does not end in the stripped character, and everything removed was that character |
| S3Signer.CanonicalUriPrefixExamples | fast_s3_url/s3_signer.py:53 | a path-style path `/my-bucket/` gives the prefix `/my-bucket`; a virtual-style path `/` gives the empty prefix |
| S3Signer.EndpointUrl | fast_s3_url/s3_signer.py:54 | the endpoint URL never ends in `/`, and for a netloc without `/` it is exactly `scheme://netloc` |
| S3Signer.RegionOrDefault | fast_s3_url/s3_signer.py:57 | the region is the given one when it is non-empty and `us-east-1` when it is missing or empty; it is never empty |
| S3Signer.EndpointBeforeDummyKey | fast_s3_url/s3_signer.py:85 | the endpoint is the text before the first occurrence of the dummy key, and there is none exactly when the key does not occur |
| Strings.IndexOf | fast_s3_url/s3_signer.py:85 | `str.index` finds the first occurrence, or reports that there is none |
| S3Signer.FastS3UrlSigner.GeneratePresignedGetObjectUrls | fast_s3_url/s3_signer.py:145-230 | an empty list gives an empty list; the call fails exactly when some key is empty; otherwise it returns one URL per key, in input order, each the presigned URL of its own key under the call's shared material |
| S3Signer.FastS3UrlSigner.SignKeys | fast_s3_url/s3_signer.py:191-228 | the per-key loop produces one URL per key in order, each built from that key and the shared signing key, date, scope and template |
| Clock.Datestamp | fast_s3_url/s3_signer.py:153 | `%Y%m%d` is eight digits |
| Clock.AmzDate | fast_s3_url/s3_signer.py:154 | `%Y%m%dT%H%M%SZ` is sixteen characters: the datestamp, `T`, six digits, `Z` |
| Clock.ParseAmzDateRoundTrip | fast_s3_url/s3_signer.py:153-154 | the `X-Amz-Date` value reads back to the instant it was made from |
| Clock.PaddedValue | fast_s3_url/s3_signer.py:153-154 | a zero-padded field denotes the number it was made from, when the number fits the width |
| Clock.AmzDateExcludes | fast_s3_url/s3_signer.py:154 | the `X-Amz-Date` value holds nothing but digits, `T` and `Z` |
| S3Signer.SigningKeyFollowsScope | fast_s3_url/s3_signer.py:233-238 | the signing key is the HMAC chain, seeded with `AWS4` followed by the secret, over the four components of the credential scope, in order |
| S3Signer.ScopeComponents | fast_s3_url/s3_signer.py:165 | the credential scope splits at `/` into date, region, `s3`, `aws4_request` |
| S3Signer.QuoteSlashSeparated | fast_s3_url/s3_signer.py:167-169 | quoting with only `~` extra-safe turns the `/` between access key and scope into `%2F` and quotes each side alone |
| S3Signer.QuotedScope | fast_s3_url/s3_signer.py:167-169 | the quoted scope is the date, the quoted region, `s3` and `aws4_request`, separated by `%2F` |
| S3Signer.EncodedCredentialShape | fast_s3_url/s3_signer.py:167-169 | the `X-Amz-Credential` value is the quoted access key followed by the scope components, all separated by `%2F` |
| Clock.DecimalRoundTrip | fast_s3_url/s3_signer.py:175 | the `X-Amz-Expires` value reads back to the expiry it was made from, negative values included (the digit limit of CPython's int conversion is left out) |
| S3Signer.DecimalStringExcludes | fast_s3_url/s3_signer.py:175 | the expiry text holds only digits and a minus sign |
| S3Signer.TokenParamIff | fast_s3_url/s3_signer.py:171-182 | the parameters hold an `X-Amz-Security-Token` exactly for token credentials, and then its value is the token quoted with `~` safe |
| S3Signer.OrderedPartsSorted | fast_s3_url/s3_signer.py:171-187 | the spelled-out parameter order is sorted |
| S3Signer.SortedTemplateParts | fast_s3_url/s3_signer.py:171-187 | sorting the parameters in the order they are built gives exactly the spelled-out order, with the token before `X-Amz-SignedHeaders` |
| S3Signer.OrderedPartsExclude | fast_s3_url/s3_signer.py:171-182 | no parameter holds `&`, `?`, a line break or a non-ASCII character |
| S3Signer.FastS3UrlSigner.TemplateParameters | fast_s3_url/s3_signer.py:185-187 | the template splits at `&` back into the sorted parameters |
| S3Signer.FastS3UrlSigner.SecurityTokenIff | fast_s3_url/s3_signer.py:179-187 | the template carries an `X-Amz-Security-Token` parameter exactly when the credentials carry a session token, and then it carries the quoted token |
| S3Signer.FastS3UrlSigner.TemplateIsAscii | fast_s3_url/s3_signer.py:171-187 | the template is ASCII whatever the access key, region or token |
| Strings.Sort | fast_s3_url/s3_signer.py:186 | `sorted` returns a sorted permutation of its input |
| Strings.SortedUnique | fast_s3_url/s3_signer.py:186 | two sorted permutations of the same strings are equal, so the sorted order is unique |
| Strings.LessEqTotal | fast_s3_url/s3_signer.py:186 | the code-point order on strings is total |
| Strings.LessEqTransitive | fast_s3_url/s3_signer.py:186 | the code-point order on strings is transitive |
| Strings.LessEqAntisymmetric | fast_s3_url/s3_signer.py:186 | the code-point order on strings is antisymmetric |
| Strings.SplitJoin | fast_s3_url/s3_signer.py:185-187 | joining parts that hold no separator and splitting at it gives the parts back |
| Quoting.QuoteBytes | fast_s3_url/s3_signer.py:196 | every character of quoted text is `%` or a safe character |
| Quoting.QuoteIsPerCharacter | fast_s3_url/s3_signer.py:196 | quoting keeps each safe ASCII character and turns every other character into `%XX` per UTF-8 byte, uppercase hex |
| Quoting.UnquoteQuoteBytes | fast_s3_url/s3_signer.py:196 | unquoting undoes quoting when `%` is not declared safe |
| Quoting.QuoteInjective | fast_s3_url/s3_signer.py:196 | distinct strings quote to distinct strings |
| Quoting.QuoteSafeString | fast_s3_url/s3_signer.py:196 | a string of safe characters quotes to itself |
| Quoting.QuoteOneEscape | fast_s3_url/s3_signer.py:196 | an unsafe ASCII character between safe text becomes `%` and its two uppercase hex digits |
| S3Signer.EncodeKeySpaceExample | fast_s3_url/s3_signer.py:196 | `hello world.txt` encodes to `hello%20world.txt` |
| S3Signer.SpaceBetweenSafeText | fast_s3_url/s3_signer.py:196 | a space between text that needs no quoting becomes `%20` and the text around it stays |
| S3Signer.EncodeKeySafeExamples | fast_s3_url/s3_signer.py:196 | `my/image.png` and `hello~world.txt` encode to themselves |
| S3Signer.EncodeKeyHasNoQuestionMark | fast_s3_url/s3_signer.py:196 | an encoded key never holds a `?` |
| S3Signer.KeyBeforeQuery | fast_s3_url/s3_signer.py:196-198 | the encoded key in front of a `?` determines the key |
| S3Signer.CanonicalRequestText | fast_s3_url/s3_signer.py:200-209 | the canonical request is `GET`, the URI and the template, then the header line, an empty line, `host` and `UNSIGNED-PAYLOAD` |
| S3Signer.CanonicalRequestLines | fast_s3_url/s3_signer.py:200-209 | the canonical request splits into exactly seven lines, the fifth empty |
| S3Signer.StringToSignLines | fast_s3_url/s3_signer.py:211-218 | the string to sign splits into exactly its four lines: algorithm, date, scope, request hash |
| Utf8.EncodeChar | fast_s3_url/s3_signer.py:216 | a character encodes to one to four bytes, and to a single byte equal to its code exactly when it is ASCII |
| Utf8.DecodeEncode | fast_s3_url/s3_signer.py:216 | decoding undoes `.encode("utf-8")` |
| Utf8.EncodeInjective | fast_s3_url/s3_signer.py:216 | distinct strings encode to distinct bytes |
| Crypto.HexDigest | fast_s3_url/s3_signer.py:216 | `.hexdigest()` is 64 lowercase hex characters that parse back to the digest |
| Hex.ParseLowerHex | fast_s3_url/s3_signer.py:245-246 | lowercase hex parses back to the bytes it renders |
| S3Signer.Signature | fast_s3_url/s3_signer.py:220 | a signature is 64 lowercase hex characters |
| S3Signer.FastS3UrlSigner.KeySignature | fast_s3_url/s3_signer.py:211-220 | the per-key signature is 64 lowercase hex characters |
| S3Signer.FastS3UrlSigner.UrlSignature | fast_s3_url/s3_signer.py:220 | the signature in a call's URL is 64 lowercase hex characters |
| S3Signer.QuerySplits | fast_s3_url/s3_signer.py:222-228 | a URL of the built shape splits at its one `?` into path and query, and the query at `&` into the parameters and a final signature |
| S3Signer.FastS3UrlSigner.UrlParameters | fast_s3_url/s3_signer.py:222-228 | each URL reads back as endpoint plus key path, then the sorted template parameters, which do not depend on the key, then `X-Amz-Signature`, last and outside the sort |
| S3Signer.FastS3UrlSigner.SignedUrlsDiffer | fast_s3_url/s3_signer.py:196-228 | under one call's material, different keys give different URLs |
| S3Signer.FastS3UrlSigner.DistinctKeysDistinctUrls | fast_s3_url/s3_signer.py:193-228 | one call never gives two different keys the same URL |
| AwsCredentials.ToCredentials | fast_s3_url/util.py:51-62 | the token variant is chosen exactly when the token is present and non-empty; both keys are copied unchanged; the session token is the input token |
| AwsCredentials.ToCredentialsRecovers | fast_s3_url/util.py:51-62 | the conversion reproduces every credential value, except a token variant with an empty token, which becomes the plain variant |
| AwsCredentials.EmptyTokenIsNoToken | fast_s3_url/util.py:52 | a missing token and an empty token both give the plain variant |

## Left out

- Hash internals. SHA-256 and HMAC-SHA256 (`hashlib`, `hmac`) are the
  `Crypto.HashSuite` parameter. The model knows only that they return 32
  bytes.
- Clock. `datetime.now` is not modelled; the batch call takes the instant
  as a `Clock.Timestamp` parameter.
- `%Y`. The model always writes the year as four zero-padded digits.
  Whether `strftime` pads years below 1000 depends on the platform and the
  CPython version: glibc's `strftime`, which older CPython releases use
  directly, writes year 1 as `1`. `datetime.now` never returns such a
  year, so the difference does not arise for the instants the signer
  uses.
- URL parsing. `urlparse` and `urlunparse` are not modelled. The
  constructor takes the endpoint already split into scheme, netloc and
  path, with a non-empty netloc.
- Other endpoint parts. Any params, query or fragment the endpoint URL
  carries are not modelled; `urlunparse` would keep them in the endpoint
  URL.
- Scheme normalisation. `urlparse`'s lowercasing of the scheme is not
  modelled.
- S3Signer.FastS3UrlSigner.UrlParameters requires that neither the
  endpoint URL nor the path prefix holds a `?`. `urlparse` guarantees
  this, but the pre-split endpoint does not.
- SDK constructors. `from_boto3_client` and `from_aiobotocore_client`
  call the SDK, draw a random dummy key and await, so they are not
  modelled. Only the slice before the dummy key is modelled, as
  `S3Signer.EndpointBeforeDummyKey`.
- SDK credential readers. The `get_credentials_from_*` functions in
  `fast_s3_url/util.py` read SDK internals and are asynchronous, so they
  are not modelled.
- `None` keys. Object keys are strings, so a `None` entry, which the code
  rejects like an empty key, cannot be expressed.
- `ValueError`. The exception the code raises for an empty key is the
  `Failure(EmptyObjectKey)` result.
- Integer digit limit. CPython 3.10.7 and later refuse to convert an int
  of more than `sys.get_int_max_str_digits()` digits (4300 by default) to
  decimal. So `f"X-Amz-Expires={expires_in}"` raises `ValueError` for an
  expiry of 10**4300 or more. `Clock.DecimalString` converts every int, so
  `S3Signer.FastS3UrlSigner.GeneratePresignedGetObjectUrls` returns URLs
  for such an expiry where the source raises. That error path is not
  modelled.
- Lone surrogates. Strings are sequences of Unicode scalar values, as a
  Dafny `char` is, so `Utf8.Encode`, `Quoting.Quote` and
  `S3Signer.FastS3UrlSigner.GeneratePresignedGetObjectUrls` succeed on
  every input. A Python `str` holding a lone surrogate (a key decoded with
  `surrogateescape`, say) makes `quote` and `.encode()` raise
  `UnicodeEncodeError`; that error path is not modelled.
- Default expiry. The default `expires_in=3600` of
  `generate_presigned_get_object_urls` is not modelled; the batch call
  always takes the expiry as a parameter.
- Tests. The package's tests and re-exports are not part of this model.
