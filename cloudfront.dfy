/** The signing facade of cloudfront/cloudfront.go: the immutable signing identity,
    signature generation, the signed cookie values and the signed URL. The RSA
    signer and the URL library are parameters: `sign` stands for SHA-1 hashing
    followed by `rsa.SignPKCS1v15` with the identity's key, `parse` for
    `url.Parse` and `format` for `(*url.URL).String`. */
module CloudFront {
  import opened Types
  import GoStrings
  import Decimal
  import SafeBase64
  import CannedPolicy

  /** The signing identity (:16-20); `K` is the type of the RSA private key. */
  datatype CloudFront<K> = CloudFront(baseUrl: Bytes, keyPairId: Bytes, key: K)

  /** `New` (:24-30): stores its three arguments; nothing changes them afterwards. */
  function New<K>(baseurl: Bytes, key: K, keyPairId: Bytes): (cf: CloudFront<K>)
    ensures cf.baseUrl == baseurl && cf.keyPairId == keyPairId && cf.key == key
  {
    CloudFront(baseurl, keyPairId, key)
  }

  /** The raw RSA PKCS#1 v1.5 signature over the SHA-1 digest of the given bytes,
      or the error the signer reported. */
  type Signer<!K> = (K, Bytes) -> Result<Bytes>

  /** A parsed URL: `prefix` stands for everything url.Parse found besides the path
      and the raw query (scheme, user, host, fragment), carried through unchanged. */
  datatype Url = Url(prefix: Bytes, path: Bytes, rawQuery: Bytes)

  type UrlParser = Bytes -> Result<Url>

  type UrlFormatter = Url -> Bytes

  /** `generateSignature` (:65-80): sign, then encode the signature for transport. */
  function GenerateSignature<K>(cf: CloudFront<K>, sign: Signer<K>, policy: Bytes): (r: Result<Bytes>)
    ensures r.Err? <==> sign(cf.key, policy).Err?
    ensures r.Err? ==> r.error == sign(cf.key, policy).error
    ensures r.Ok? ==> r.value == SafeBase64.Encode(sign(cf.key, policy).value)
    ensures r.Ok? ==> SafeBase64.Decode(r.value) == Some(sign(cf.key, policy).value)
    ensures r.Ok? ==> Free(r.value, '&') && Free(r.value, '=') && Free(r.value, '+') && Free(r.value, '/')
  {
    match sign(cf.key, policy)
    case Err(e) => Err(e)
    case Ok(signed) =>
      SafeBase64.DecodeEncode(signed);
      Ok(SafeBase64.Encode(signed))
  }

  /** The resource a cookie grants (:85): the base URL without one trailing slash,
      a slash, then the resource. A base ending in one slash is joined directly;
      any other base gets a slash added. */
  function CookieResource(baseUrl: Bytes, resource: Bytes): (r: Bytes)
    ensures GoStrings.HasSuffix(baseUrl, "/") ==> r == baseUrl + resource
    ensures !GoStrings.HasSuffix(baseUrl, "/") ==> r == baseUrl + "/" + resource
  {
    GoStrings.TrimSuffix(baseUrl, "/") + "/" + resource
  }

  /** The resource a signed URL grants (:103-106). Without a query string it is the
      base URL and the path joined by one slash; with one it is the path, `?` and the
      query string, and the base URL plays no part. */
  function UrlResource(baseUrl: Bytes, path: Bytes, queryString: Bytes): (r: Bytes)
    ensures queryString == [] ==> r == CookieResource(baseUrl, GoStrings.TrimPrefix(path, "/"))
    ensures queryString != [] ==> r == path + "?" + queryString
  {
    var resource := GoStrings.TrimSuffix(baseUrl, "/") + "/" + GoStrings.TrimPrefix(path, "/");
    if queryString != [] then path + "?" + queryString else resource
  }

  /** Without a query string exactly one slash joins base URL and path, whether
      either side brought its own slash or not. */
  lemma UrlResourceJoin(baseUrl: Bytes, path: Bytes)
    ensures var r := UrlResource(baseUrl, path, []);
      var slashEnd, slashStart := GoStrings.HasSuffix(baseUrl, "/"), GoStrings.HasPrefix(path, "/");
      (slashEnd && slashStart ==> r == baseUrl + path[1..]) &&
      (slashEnd && !slashStart ==> r == baseUrl + path) &&
      (!slashEnd && slashStart ==> r == baseUrl + path) &&
      (!slashEnd && !slashStart ==> r == baseUrl + "/" + path)
  {
    if GoStrings.HasPrefix(path, "/") {
      assert path == "/" + path[1..];
    }
  }

  /** The signing parameters `fmt.Sprintf` writes into the query (:130):
      `Expires`, `Signature` and `Key-Pair-Id`, in that order. */
  function SigningParams(expires: int, signature: Bytes, keyPairId: Bytes): (r: Bytes)
    ensures GoStrings.HasPrefix(r, "Expires=")
    ensures GoStrings.HasSuffix(r, "&Key-Pair-Id=" + keyPairId)
  {
    var r := "Expires=" + Decimal.FormatInt(expires) + "&Signature=" + signature + "&Key-Pair-Id=" + keyPairId;
    assert r[..8] == "Expires=";
    assert r[|r| - |"&Key-Pair-Id=" + keyPairId|..] == "&Key-Pair-Id=" + keyPairId;
    r
  }

  /** The query string of the signed URL (:124-131): the caller's query, `&` when
      that query is not empty, then the signing parameters. */
  function RawQuery(queryString: Bytes, expires: int, signature: Bytes, keyPairId: Bytes): (r: Bytes)
    ensures GoStrings.HasPrefix(r, queryString)
    ensures GoStrings.HasSuffix(r, SigningParams(expires, signature, keyPairId))
    ensures queryString == [] ==> r == SigningParams(expires, signature, keyPairId)
    ensures queryString != [] ==> r == queryString + "&" + SigningParams(expires, signature, keyPairId)
  {
    var q := queryString + (if queryString != [] then "&" else []);
    var r := q + SigningParams(expires, signature, keyPairId);
    assert r[..|queryString|] == queryString;
    assert r[|q|..] == SigningParams(expires, signature, keyPairId);
    r
  }

  lemma SigningParamsShape(expires: int, signature: Bytes, keyPairId: Bytes)
    ensures SigningParams(expires, signature, keyPairId)
      == ("Expires=" + Decimal.FormatInt(expires)) + ['&'] + ("Signature=" + signature) + ['&'] + ("Key-Pair-Id=" + keyPairId)
  {
    var sigKey: Bytes, idKey: Bytes := "&Signature=", "&Key-Pair-Id=";
    assert sigKey == ['&'] + "Signature=";
    assert idKey == ['&'] + "Key-Pair-Id=";
    var e, n, s, k := "Expires=", Decimal.FormatInt(expires), "Signature=", "Key-Pair-Id=";
    assert e + n + (['&'] + s) + signature + (['&'] + k) + keyPairId
      == (e + n) + ['&'] + (s + signature) + ['&'] + (k + keyPairId);
  }

  lemma ExpiresFree(expires: int)
    ensures Free("Expires=" + Decimal.FormatInt(expires), '&')
  {
  }

  /** The signing parameters are three `&`-separated pieces, as long as neither the
      signature nor the key-pair id holds an `&`. */
  lemma SigningParamsSplit(expires: int, signature: Bytes, keyPairId: Bytes)
    requires Free(signature, '&') && Free(keyPairId, '&')
    ensures GoStrings.Split(SigningParams(expires, signature, keyPairId), '&')
      == ["Expires=" + Decimal.FormatInt(expires), "Signature=" + signature, "Key-Pair-Id=" + keyPairId]
  {
    var e, s, k := "Expires=" + Decimal.FormatInt(expires), "Signature=" + signature, "Key-Pair-Id=" + keyPairId;
    SigningParamsShape(expires, signature, keyPairId);
    ExpiresFree(expires);
    assert Free(s, '&') && Free(k, '&');
    GoStrings.SplitFree(e, '&');
    GoStrings.SplitFree(s, '&');
    GoStrings.SplitFree(k, '&');
    GoStrings.SplitAppend(e + ['&'] + s, k, '&');
    GoStrings.SplitAppend(e, s, '&');
  }

  /** The parameters a reader of the query finds when it splits it at `&`: the
      caller's own, then `Expires`, `Signature` and `Key-Pair-Id`. */
  lemma RawQueryParams(queryString: Bytes, expires: int, signature: Bytes, keyPairId: Bytes)
    requires Free(signature, '&') && Free(keyPairId, '&')
    ensures GoStrings.Split(RawQuery(queryString, expires, signature, keyPairId), '&')
      == (if queryString == [] then [] else GoStrings.Split(queryString, '&'))
         + ["Expires=" + Decimal.FormatInt(expires), "Signature=" + signature, "Key-Pair-Id=" + keyPairId]
  {
    var params := SigningParams(expires, signature, keyPairId);
    SigningParamsSplit(expires, signature, keyPairId);
    if queryString != [] {
      assert RawQuery(queryString, expires, signature, keyPairId) == queryString + ['&'] + params;
      GoStrings.SplitAppend(queryString, params, '&');
    } else {
      assert RawQuery(queryString, expires, signature, keyPairId) == params;
    }
  }

  /** The three values of a signed cookie, or the error, as `Cookie` returns them:
      on an error every string is empty. */
  datatype CookieValues = CookieValues(b64Policy: Bytes, b64SignedPolicy: Bytes, keyPairId: Bytes, err: Option<Error>)

  /** The policy bytes `Cookie` signs. */
  function CookiePolicy<K>(cf: CloudFront<K>, resource: Bytes, expires: CannedPolicy.Instant): Bytes {
    CannedPolicy.BuildPolicy(CookieResource(cf.baseUrl, resource), expires).value
  }

  /** `Cookie` (:82-98). On success the policy value is the transport encoding of
      exactly the bytes that were signed, the signature value encodes the signer's
      output for them, and the key-pair id is the identity's. A signing error is
      returned as it came, with every value empty. */
  function Cookie<K>(cf: CloudFront<K>, sign: Signer<K>, resource: Bytes, expires: CannedPolicy.Instant): (r: CookieValues)
    ensures r.err.Some? <==> sign(cf.key, CookiePolicy(cf, resource, expires)).Err?
    ensures r.err.Some? ==>
      r == CookieValues([], [], [], Some(sign(cf.key, CookiePolicy(cf, resource, expires)).error))
    ensures r.err.None? ==> r.keyPairId == cf.keyPairId
    ensures r.err.None? ==> r.b64Policy == SafeBase64.Encode(CookiePolicy(cf, resource, expires))
    ensures r.err.None? ==>
      r.b64SignedPolicy == SafeBase64.Encode(sign(cf.key, CookiePolicy(cf, resource, expires)).value)
    ensures r.err.None? ==> SafeBase64.Decode(r.b64Policy) == Some(CookiePolicy(cf, resource, expires))
    ensures r.err.None? ==>
      SafeBase64.Decode(r.b64SignedPolicy) == Some(sign(cf.key, CookiePolicy(cf, resource, expires)).value)
  {
    match CannedPolicy.BuildPolicy(CookieResource(cf.baseUrl, resource), expires)
    case Err(e) => CookieValues([], [], [], Some(e))
    case Ok(policy) =>
      match GenerateSignature(cf, sign, policy)
      case Err(e) => CookieValues([], [], [], Some(e))
      case Ok(signature) =>
        SafeBase64.DecodeEncode(policy);
        CookieValues(SafeBase64.Encode(policy), signature, cf.keyPairId, None)
  }

  /** What the delivery network reads from a successful cookie: a one-statement
      policy granting the base URL joined to the resource, until the expiry's whole
      second. */
  lemma CookieGrants<K>(cf: CloudFront<K>, sign: Signer<K>, resource: Bytes, expires: CannedPolicy.Instant)
    requires Cookie(cf, sign, resource, expires).err.None?
    ensures SafeBase64.Decode(Cookie(cf, sign, resource, expires).b64Policy).Some?
    ensures CannedPolicy.Parse(SafeBase64.Decode(Cookie(cf, sign, resource, expires).b64Policy).value)
      == Some(CannedPolicy.Grant(CookieResource(cf.baseUrl, resource), expires / CannedPolicy.NanosPerSecond))
  {
  }

  /** The policy bytes `CannedSignedURL` signs. */
  function UrlPolicy<K>(cf: CloudFront<K>, path: Bytes, queryString: Bytes, expires: CannedPolicy.Instant): Bytes {
    CannedPolicy.BuildPolicy(UrlResource(cf.baseUrl, path, queryString), expires).value
  }

  /** The URL `CannedSignedURL` builds before formatting it (:102-131): the parsed
      base URL with its path replaced by `path` and its query by the signed query.
      Errors come from the signer first, then from parsing the base URL. */
  function SignedUrl<K>(cf: CloudFront<K>, sign: Signer<K>, parse: UrlParser,
                        path: Bytes, queryString: Bytes, expires: CannedPolicy.Instant): (r: Result<Url>)
    ensures r.Ok? <==> sign(cf.key, UrlPolicy(cf, path, queryString, expires)).Ok? && parse(cf.baseUrl).Ok?
    ensures sign(cf.key, UrlPolicy(cf, path, queryString, expires)).Err? ==>
      r == Err(sign(cf.key, UrlPolicy(cf, path, queryString, expires)).error)
    ensures sign(cf.key, UrlPolicy(cf, path, queryString, expires)).Ok? && parse(cf.baseUrl).Err? ==>
      r == Err(parse(cf.baseUrl).error)
    ensures r.Ok? ==> r.value.prefix == parse(cf.baseUrl).value.prefix && r.value.path == path
    ensures r.Ok? ==> r.value.rawQuery == RawQuery(queryString, expires / CannedPolicy.NanosPerSecond,
      SafeBase64.Encode(sign(cf.key, UrlPolicy(cf, path, queryString, expires)).value), cf.keyPairId)
  {
    var resource := UrlResource(cf.baseUrl, path, queryString);
    match CannedPolicy.BuildPolicy(resource, expires)
    case Err(e) => Err(e)
    case Ok(policy) =>
      match GenerateSignature(cf, sign, policy)
      case Err(e) => Err(e)
      case Ok(signature) =>
        match parse(cf.baseUrl)
        case Err(e) => Err(e)
        case Ok(uri) =>
          var expireTime := CannedPolicy.EpochSeconds(expires);
          Ok(Url(uri.prefix, path, RawQuery(queryString, expireTime, signature, cf.keyPairId)))
  }

  /** The URL string and the error, as `CannedSignedURL` returns them: on an error
      the string is empty. */
  datatype SignedUrlResult = SignedUrlResult(url: Bytes, err: Option<Error>)

  /** `CannedSignedURL` (:102-133): the signed URL formatted, or the first error. */
  function CannedSignedURL<K>(cf: CloudFront<K>, sign: Signer<K>, parse: UrlParser, format: UrlFormatter,
                              path: Bytes, queryString: Bytes, expires: CannedPolicy.Instant): (r: SignedUrlResult)
    ensures r.err.None? <==> SignedUrl(cf, sign, parse, path, queryString, expires).Ok?
    ensures r.err.None? ==> r.url == format(SignedUrl(cf, sign, parse, path, queryString, expires).value)
    ensures r.err.Some? ==> r.url == [] && r.err.value == SignedUrl(cf, sign, parse, path, queryString, expires).error
  {
    match SignedUrl(cf, sign, parse, path, queryString, expires)
    case Err(e) => SignedUrlResult([], Some(e))
    case Ok(u) => SignedUrlResult(format(u), None)
  }

  /** What the delivery network reads from a successful signed URL: the policy that
      was signed grants the URL resource until the expiry's whole second, and the
      query ends in that same second as `Expires`, the encoded signature over exactly
      that policy, and the key-pair id. */
  lemma SignedUrlGrants<K>(cf: CloudFront<K>, sign: Signer<K>, parse: UrlParser,
                           path: Bytes, queryString: Bytes, expires: CannedPolicy.Instant)
    requires SignedUrl(cf, sign, parse, path, queryString, expires).Ok?
    requires Free(cf.keyPairId, '&')
    ensures var policy := UrlPolicy(cf, path, queryString, expires);
      var epoch := expires / CannedPolicy.NanosPerSecond;
      var signature := SafeBase64.Encode(sign(cf.key, policy).value);
      CannedPolicy.Parse(policy) == Some(CannedPolicy.Grant(UrlResource(cf.baseUrl, path, queryString), epoch)) &&
      SafeBase64.Decode(signature) == Some(sign(cf.key, policy).value) &&
      GoStrings.Split(SignedUrl(cf, sign, parse, path, queryString, expires).value.rawQuery, '&')
        == (if queryString == [] then [] else GoStrings.Split(queryString, '&'))
           + ["Expires=" + Decimal.FormatInt(epoch), "Signature=" + signature, "Key-Pair-Id=" + cf.keyPairId]
  {
    var policy := UrlPolicy(cf, path, queryString, expires);
    var signed := sign(cf.key, policy).value;
    SafeBase64.DecodeEncode(signed);
    RawQueryParams(queryString, expires / CannedPolicy.NanosPerSecond, SafeBase64.Encode(signed), cf.keyPairId);
  }

  /** The worked example of a cookie: `images/1.jpg` under a base URL with a
      trailing slash. */
  lemma CookieExample()
    ensures CookieResource("https://cdn.example.com/", "images/1.jpg")
      == "https://cdn.example.com/images/1.jpg"
  {
    var base: Bytes, resource: Bytes := "https://cdn.example.com/", "images/1.jpg";
    assert GoStrings.HasSuffix(base, "/");
    assert CookieResource(base, resource) == base + resource;
  }

  /** The worked example of a signed URL's resource without a query string. */
  lemma UrlExample()
    ensures UrlResource("https://cdn.example.com", "/images/1.jpg", "")
      == "https://cdn.example.com/images/1.jpg"
  {
    var base: Bytes, path: Bytes, file: Bytes := "https://cdn.example.com", "/images/1.jpg", "images/1.jpg";
    assert !GoStrings.HasSuffix(base, "/");
    assert path == "/" + file;
    assert UrlResource(base, path, []) == base + "/" + file;
  }

  /** The worked example of a signed URL's resource with a query string: the path
      and the query, without the base URL. */
  lemma UrlQueryExample()
    ensures UrlResource("https://cdn.example.com", "/images/1.jpg", "v=2") == "/images/1.jpg?v=2"
  {
  }
}
