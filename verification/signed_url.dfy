/** GetSignedURL up to the presigner call: the request input, the response
    header overrides a Config applies to it, and the default configuration
    used when the caller passes none. */
module SignedUrl {
  import opened Outcomes
  import opened ObjectKey

  /** time.Duration counts nanoseconds. */
  const Minute: int := 60 * 1_000_000_000

  /** Options for a pre-signed URL; a None header is a nil pointer. */
  datatype Config = Config(contentType: Option<string>, contentDisposition: Option<string>, expiry: int)

  /** The fields of s3.GetObjectInput the service sets. */
  datatype GetObjectInput = GetObjectInput(
    bucket: string,
    key: string,
    responseContentType: Option<string>,
    responseContentDisposition: Option<string>)

  /** Config.configureHeaders: each header the config sets replaces the
      request's; a header it leaves nil, and every other field, is kept. */
  function ConfigureHeaders(c: Config, input: GetObjectInput): (out: GetObjectInput)
    ensures out.bucket == input.bucket && out.key == input.key
    ensures c.contentType.Some? ==> out.responseContentType == c.contentType
    ensures c.contentType.None? ==> out.responseContentType == input.responseContentType
    ensures c.contentDisposition.Some? ==> out.responseContentDisposition == c.contentDisposition
    ensures c.contentDisposition.None? ==> out.responseContentDisposition == input.responseContentDisposition
  {
    var typed := if c.contentType.Some? then input.(responseContentType := c.contentType) else input;
    if c.contentDisposition.Some? then typed.(responseContentDisposition := c.contentDisposition) else typed
  }

  /** Applying the same overrides twice changes nothing more. */
  lemma ConfigureHeadersIdempotent(c: Config, input: GetObjectInput)
    ensures ConfigureHeaders(c, ConfigureHeaders(c, input)) == ConfigureHeaders(c, input)
  {
  }

  /** A config whose headers are both nil leaves the request as it was. */
  lemma NoHeadersNoChange(expiry: int, input: GetObjectInput)
    ensures ConfigureHeaders(Config(None, None, expiry), input) == input
  {
  }

  /** The config whose set headers win over `first`'s. */
  function Override(first: Config, second: Config): Config {
    Config(
      if second.contentType.Some? then second.contentType else first.contentType,
      if second.contentDisposition.Some? then second.contentDisposition else first.contentDisposition,
      second.expiry)
  }

  /** Configuring twice is configuring once with the later config's set
      headers taking precedence. */
  lemma ConfigureHeadersCompose(first: Config, second: Config, input: GetObjectInput)
    ensures ConfigureHeaders(second, ConfigureHeaders(first, input))
         == ConfigureHeaders(Override(first, second), input)
  {
  }

  /** getSignedUrlConfig: no header overrides, a 20-minute expiry. */
  function DefaultConfig(): (c: Config)
    ensures c.contentType.None? && c.contentDisposition.None?
    ensures c.expiry == 1_200_000_000_000
  {
    Config(None, None, 20 * Minute)
  }

  /** What is handed to PresignGetObject: the input and the expiry. */
  datatype PresignRequest = PresignRequest(input: GetObjectInput, expires: int)

  /** GetSignedURL up to the presigner: extract the key (errors and the
      empty-path panic pass through), fall back to the default config when
      none is given, build the input and apply the config's headers. */
  function PrepareSignedUrl(parsed: Result<ParsedUrl>, bucket: string, config: Option<Config>)
    : (r: Result<PresignRequest>)
    ensures ExtractObjectKey(parsed).Err? ==> r == Err(ExtractObjectKey(parsed).failure)
    ensures r.Ok? <==> ExtractObjectKey(parsed).Ok?
    ensures r.Ok? ==> r.value.input.bucket == bucket
    ensures r.Ok? ==> r.value.input.key == ExtractObjectKey(parsed).value
    ensures r.Ok? && config.None? ==>
              r.value.expires == 20 * Minute
              && r.value.input.responseContentType.None?
              && r.value.input.responseContentDisposition.None?
    ensures r.Ok? && config.Some? ==>
              r.value.expires == config.value.expiry
              && r.value.input.responseContentType == config.value.contentType
              && r.value.input.responseContentDisposition == config.value.contentDisposition
  {
    match ExtractObjectKey(parsed)
    case Err(f) => Err(f)
    case Ok(key) =>
      var c := if config.Some? then config.value else DefaultConfig();
      Ok(PresignRequest(ConfigureHeaders(c, GetObjectInput(bucket, key, None, None)), c.expiry))
  }

  /** Passing no config is the same as passing the default one. */
  lemma MissingConfigIsDefault(parsed: Result<ParsedUrl>, bucket: string)
    ensures PrepareSignedUrl(parsed, bucket, None) == PrepareSignedUrl(parsed, bucket, Some(DefaultConfig()))
  {
  }

  /** GetSignedURL as a whole; the presigner's answer is a parameter (None
      when it fails). */
  function GetSignedUrl(parsed: Result<ParsedUrl>, bucket: string, config: Option<Config>,
                        presigned: Option<string>)
    : (r: Result<string>)
    ensures PrepareSignedUrl(parsed, bucket, config).Err? ==>
              r == Err(PrepareSignedUrl(parsed, bucket, config).failure)
    ensures PrepareSignedUrl(parsed, bucket, config).Ok? && presigned.None? ==> r == Err(PresignFailed)
    ensures r.Ok? <==> ExtractObjectKey(parsed).Ok? && presigned.Some?
    ensures r.Ok? ==> r.value == presigned.value
  {
    match PrepareSignedUrl(parsed, bucket, config)
    case Err(f) => Err(f)
    case Ok(_) => if presigned.Some? then Ok(presigned.value) else Err(PresignFailed)
  }

  /** A signed URL for a hosted URL the service printed signs the object
      that was stored under that key. */
  lemma SignsTheHostedKey(bucket: string, region: string, key: string, config: Option<Config>)
    requires HostSafe(bucket) && HostSafe(region) && PathSafe(key)
    ensures ParseHostedUrl(HostedUrl(bucket, region, key)).Some?
    ensures var r := PrepareSignedUrl(Ok(ParseHostedUrl(HostedUrl(bucket, region, key)).value), bucket, config);
            r.Ok? && r.value.input.key == key && r.value.input.bucket == bucket
  {
    KeyRoundTrip(bucket, region, key);
  }
}
