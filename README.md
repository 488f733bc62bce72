# CloudFront canned-policy signer, modelled in Dafny

This project models the signing core of `cloudfront/cloudfront.go`, a Go package. The package produces signed cookies and signed URLs for CloudFront's "canned policy" scheme. A signing identity holds three things: a base URL, a key-pair id and an RSA private key. With it, a caller grants access to one resource until an expiry instant. The package does this in five steps:

1. It writes a one-statement policy document with `json.Marshal`. The expiry goes in as Unix seconds, after truncation to the millisecond.
2. It signs that document with RSA PKCS#1 v1.5 over SHA-1.
3. It encodes both the document and the signature in standard base64.
4. It rewrites `=`, `+` and `/` as `_`, `-` and `~`.
5. It returns the values as three cookie values, or appends them to a URL's query string as `Expires`, `Signature` and `Key-Pair-Id`.

The model is written on values, as the source is. Every operation in the source returns a fresh result, and the identity is never changed after `New`.

- Go strings and byte slices are `seq<byte>`.
- A `time.Time` is an integer count of nanoseconds since the Unix epoch.
- Go's `(T, error)` pairs are a `Result`.
- The RSA signer is a function parameter `sign`.
- `url.Parse` is a function parameter `parse`.
- `(*url.URL).String` is a function parameter `format`.

The standard library pieces the output format depends on are modelled concretely:

- base64 encoding and the replacer;
- `encoding/json`'s writing of the policy structs, their strings and their integers;
- `strings.TrimSuffix` and `strings.TrimPrefix`;
- the truncation and Unix conversion of `time`.

Each writer has a reader beside it:

- a base64 decoder;
- a JSON string and integer reader;
- a policy parser;
- `strings.Split`.

The main results are statements about what the delivery network reads back:

- A cookie's policy value decodes to the exact bytes that were signed. Those bytes parse to the one-statement grant of the base URL joined to the resource, until the expiry's whole second.
- A signed URL's query splits at `&` into the caller's parameters, followed by `Expires`, `Signature` and `Key-Pair-Id`. The `Expires` value is the same second the signed policy carries, and the `Signature` value decodes to the signer's output over that policy.

With a non-empty query string, the URL resource is `path + "?" + queryString`, with no base URL in front. The model keeps this asymmetry as written (`CloudFront.UrlResource`).

## Model

| member | source | states |
|---|---|---|
| Base64.Encode | cloudfront/cloudfront.go:78 | The standard encoding has length 4·⌈n/3⌉. Every character is in the 64-letter alphabet, except `=` padding in the last two positions. |
| Base64.DecodeEncode | cloudfront/cloudfront.go:78 | Decoding the standard encoding of any byte sequence gives the sequence back. |
| Base64.EncodeDecode | cloudfront/cloudfront.go:78 | Any text that decodes is the encoding of what it decodes to. This makes encoding and decoding inverse bijections. |
| Base64.EncodeInjective | cloudfront/cloudfront.go:78 | Two byte sequences have the same encoding only when they are equal. |
| Base64.Rfc4648ShortVectors | cloudfront/cloudfront.go:78 | The test vectors of section 10 of RFC 4648 for the empty string, `f`, `fo` and `foo`: the empty string, `Zg==`, `Zm8=` and `Zm9v`. |
| Base64.Rfc4648FoobVector | cloudfront/cloudfront.go:78 | `foob` encodes as `Zm9vYg==`, as section 10 of RFC 4648 gives it. |
| Base64.Rfc4648FoobaVector | cloudfront/cloudfront.go:78 | `fooba` encodes as `Zm9vYmE=`, as section 10 of RFC 4648 gives it. |
| Base64.Rfc4648FoobarVector | cloudfront/cloudfront.go:78 | `foobar` encodes as `Zm9vYmFy`, as section 10 of RFC 4648 gives it. |
| SafeBase64.Replace | cloudfront/cloudfront.go:22 | `base64Replacer` keeps the length. It maps `=`→`_`, `+`→`-`, `/`→`~` at each position, leaves every other byte unchanged, and leaves no `=`, `+` or `/`. |
| SafeBase64.RestoreReplace | cloudfront/cloudfront.go:22 | On text without `_`, `-` and `~`, which covers all base64 output, the reverse substitution undoes the replacer. |
| SafeBase64.ReplaceRestore | cloudfront/cloudfront.go:22 | On text without `=`, `+` and `/`, the replacer undoes the reverse substitution. |
| SafeBase64.Encode | cloudfront/cloudfront.go:78 | The replaced encoding has the standard encoding's length. It uses only letters, digits, `-`, `~` and `_`, with `_` only in the last two places, and holds no `&`, `=`, `+` or `/`. |
| SafeBase64.DecodeEncode | cloudfront/cloudfront.go:96 | Reversing the substitution and decoding recovers the encoded bytes. |
| SafeBase64.EncodeDecode | cloudfront/cloudfront.go:78 | Text without `=`, `+` and `/` that decodes is the encoding of what it decodes to. |
| SafeBase64.EncodeInjective | cloudfront/cloudfront.go:96 | Distinct byte sequences never share a replaced encoding. |
| Json.EscapeByte | cloudfront/cloudfront.go:62 | One byte of a string is written as itself, or as an escape of two to six bytes that starts with a backslash. It is never a bare `"`, and never a control byte, `<`, `>` or `&`. |
| Json.Escape | cloudfront/cloudfront.go:62 | The escaped contents are one to six bytes per input byte and hold no control byte, `<`, `>` or `&`. |
| Json.Quote | cloudfront/cloudfront.go:62 | A Go string as json.Marshal writes it: between two quotes, HTML-safe, and read back by the string reader as exactly `s`, with the closing quote as the last byte. |
| Json.ReadEscape | cloudfront/cloudfront.go:62 | Reading back a string as json.Marshal escapes it gives exactly the original bytes. The reader stops at the closing quote and leaves what follows untouched. |
| Json.QuoteInjective | cloudfront/cloudfront.go:62 | Two quoted JSON strings are equal exactly when their contents are equal. |
| Decimal.Digits | cloudfront/cloudfront.go:33 | The decimal form of a natural number is nonempty and made of digits. It has no leading zero unless the number is 0. |
| Decimal.FormatInt | cloudfront/cloudfront.go:33 | The JSON form of the `int64` epoch is digits, with a leading `-` exactly when the number is negative. |
| Decimal.ReadFormatInt | cloudfront/cloudfront.go:62 | Reading back a marshalled integer gives the same integer and leaves the text after it untouched. |
| CannedPolicy.TruncateMillis | cloudfront/cloudfront.go:56 | `Truncate(time.Millisecond)` gives the largest whole millisecond not after the instant. |
| CannedPolicy.Unix | cloudfront/cloudfront.go:56 | `Unix()` gives the whole second that contains the instant, rounded down, including before 1970. |
| CannedPolicy.EpochSeconds | cloudfront/cloudfront.go:56 | Truncating to the millisecond and then taking `Unix()` is flooring to the whole second: the millisecond step never changes the result. |
| CannedPolicy.Grant | cloudfront/cloudfront.go:50-60 | The policy value `buildPolicy` builds has exactly one statement, with the given resource and epoch. |
| CannedPolicy.MarshalStatement | cloudfront/cloudfront.go:40-43 | A statement is written as one JSON object, `{` to `}`, with no control byte, `<`, `>` or `&`. |
| CannedPolicy.MarshalStatements | cloudfront/cloudfront.go:46 | The statement array's contents are empty exactly when there are no statements. Otherwise they start with an object, and they are HTML-safe. |
| CannedPolicy.Marshal | cloudfront/cloudfront.go:45-62 | json.Marshal of a policy starts with `{"Statement":[`, ends with `]}` and is HTML-safe. |
| CannedPolicy.BuildPolicy | cloudfront/cloudfront.go:49-63 | `buildPolicy` never fails for this shape. Its document parses back to exactly one statement, which grants `resource` with `AWS:EpochTime` equal to the expiry's floored second, and it holds no control byte, `<`, `>` or `&`. |
| CannedPolicy.MarshalRoundTrip | cloudfront/cloudfront.go:45-62 | Every policy value parses back from its marshalled text, whatever its number of statements. |
| CannedPolicy.MarshalInjective | cloudfront/cloudfront.go:62 | Two policies marshal to the same bytes only when they are equal. |
| CannedPolicy.BuildPolicyTemplate | cloudfront/cloudfront.go:32-62 | The document is `{"Statement":[{"Resource":` + quoted resource + `,"Condition":{"DateLessThan":{"AWS:EpochTime":` + decimal seconds + `}}}]}`. The keys come in declaration order, with no whitespace. |
| CannedPolicy.BuildPolicySameSecond | cloudfront/cloudfront.go:49-63 | Two calls give byte-identical documents exactly when the resources are equal and the expiries fall in the same whole second. |
| GoStrings.TrimSuffix | cloudfront/cloudfront.go:85 | `strings.TrimSuffix` removes the suffix when `s` ends in it, and otherwise returns `s` unchanged. |
| GoStrings.TrimPrefix | cloudfront/cloudfront.go:103 | `strings.TrimPrefix` removes the prefix when `s` starts with it, and otherwise returns `s` unchanged. |
| GoStrings.TrimSuffixOnce | cloudfront/cloudfront.go:85 | Trimming a slash removes at most one byte. A base ending in `//` still ends in `/` afterwards. |
| GoStrings.TrimPrefixOnce | cloudfront/cloudfront.go:103 | Trimming a slash removes at most one byte. A path starting with `//` still starts with `/` afterwards. |
| CloudFront.New | cloudfront/cloudfront.go:24-30 | The identity holds exactly the given base URL, key-pair id and key. |
| CloudFront.GenerateSignature | cloudfront/cloudfront.go:65-80 | It fails exactly when the signer fails, with the signer's error. On success the text is the substituted base64 of the signer's output. It decodes back to that output and holds no `&`, `=`, `+` or `/`. |
| CloudFront.CookieResource | cloudfront/cloudfront.go:85 | A base ending in `/` is followed directly by the resource. Any other base gets one `/` before the resource. |
| CloudFront.UrlResource | cloudfront/cloudfront.go:103-106 | Without a query string, the base and the path are joined by one slash. With one, the resource is `path?query`, and the base URL plays no part. |
| CloudFront.UrlResourceJoin | cloudfront/cloudfront.go:103 | Without a query string, the join takes exactly one slash, in all four cases of a slash at the end of the base and at the start of the path. |
| CloudFront.SigningParams | cloudfront/cloudfront.go:130 | The appended parameters begin with `Expires=` and end with `&Key-Pair-Id=` plus the id. |
| CloudFront.SigningParamsSplit | cloudfront/cloudfront.go:130 | Split at `&`, the appended parameters are exactly `Expires=<n>`, `Signature=<sig>` and `Key-Pair-Id=<id>`, in that order. |
| CloudFront.RawQuery | cloudfront/cloudfront.go:124-131 | An empty caller query gives just the signing parameters. A nonempty one is followed by `&` and then the signing parameters. |
| CloudFront.RawQueryParams | cloudfront/cloudfront.go:124-131 | Split at `&`, the query is the caller's parameters, if any, followed by the three signing parameters. |
| CloudFront.Cookie | cloudfront/cloudfront.go:82-98 | It errors exactly when signing fails. The error is returned unchanged, with all three values empty. On success, the policy value is the substituted base64 of exactly the signed document, the signature value is the substituted base64 of the signer's output for it, and the id is the identity's. Both values decode back to those bytes. |
| CloudFront.CookieGrants | cloudfront/cloudfront.go:84-96 | A successful cookie's policy value decodes and parses to the grant of the base URL joined to the resource, until the expiry's whole second. |
| CloudFront.SignedUrl | cloudfront/cloudfront.go:102-131 | It succeeds exactly when signing and parsing the base URL both succeed, and a signing error is reported before a parse error. On success the parsed URL's other parts are kept, the path is `path`, and the raw query is built from the floored expiry second, the encoded signature and the id. |
| CloudFront.CannedSignedURL | cloudfront/cloudfront.go:102-133 | On success it returns the formatted signed URL. Otherwise it returns the empty string with the first error. |
| CloudFront.SignedUrlGrants | cloudfront/cloudfront.go:108-131 | For a successful URL, the signed policy grants the URL resource until the floored expiry second. The query ends in `Expires` with that same second, `Signature` with text that decodes to the signer's output over that policy, and `Key-Pair-Id`. |
| CloudFront.CookieExample | cloudfront/cloudfront.go:85 | The cookie resource for `images/1.jpg` under `https://cdn.example.com/` is `https://cdn.example.com/images/1.jpg`. |
| CloudFront.UrlExample | cloudfront/cloudfront.go:103 | Under `https://cdn.example.com`, the path `/images/1.jpg` without a query gives the resource `https://cdn.example.com/images/1.jpg`. |
| CloudFront.UrlQueryExample | cloudfront/cloudfront.go:104-106 | The path `/images/1.jpg` with the query `v=2` gives the resource `/images/1.jpg?v=2`, whatever the base URL. |

## Left out

- RSA PKCS#1 v1.5 signing, SHA-1 hashing and the `crypto/rand` entropy source are not modelled. Together they are the parameter `sign: (K, Bytes) -> Result<Bytes>`, and its output is treated as arbitrary bytes. The `hash.Write` error at `:67-69` is folded into the signer's error.
- `url.Parse` and `(*url.URL).String` are the parameters `parse` and `format`. A parsed URL is only its path, its raw query and an opaque rest. Percent-escaping of the path on output is left to `format`.
- Json.EscapeByte: copies every byte at or above 0x80 verbatim. encoding/json replaces invalid UTF-8 with `\ufffd` and writes U+2028 and U+2029 as `\u2028` and `\u2029`. Backspace and form feed are written as `\u0008` and `\u000c`, as older Go releases do; newer releases write `\b` and `\f`. Because the invalid-UTF-8 replacement is left out, the exact-resource claims of Json.QuoteInjective, CannedPolicy.MarshalInjective, CannedPolicy.BuildPolicySameSecond and CloudFront.CookieGrants hold for the model only. In Go, two resources that differ only in invalid UTF-8 bytes, such as `"\xff"` and `"\xfe"`, give the same document.
- CannedPolicy.Marshal: a nil statement slice, which Go writes as `null`, is not modelled. `buildPolicy` always builds a one-element slice.
- CannedPolicy.BuildPolicy: json.Marshal's error result is shown never to occur, not modelled as a real failure.
- CannedPolicy.Instant: an unbounded integer count of nanoseconds. Go's `time.Time` range, the `int64` result of `Unix()`, and time zones are not modelled; time zones do not affect the result. The monotonic clock reading is dropped by `Truncate` and does not matter here.
- CloudFront.SignedUrlGrants: requires a key-pair id without `&`. The source does not escape the id, so an id holding `&` would split into extra query parameters.
- Cookie names and setting the cookies on an HTTP response are outside the source and not modelled.
