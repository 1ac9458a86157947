# S3 file-name sanitizer and object-key model

A Dafny model of the pure logic in the sales-tax API's S3 helper package
(`internal/aws/s3/main.go`).

- **`sanitizeFileName`** turns an untrusted upload name into an S3-safe one. The steps are:
  1. lower-case the name;
  2. split it at the last `.`;
  3. replace each space of the base with `_`;
  4. replace each run of characters outside `[a-z0-9._-]` with one `_`;
  5. trim `._-` from both ends of the base;
  6. cut the base to `1024 - len(extension)` bytes;
  7. re-attach the extension.
- **`Upload`** stores a file under the key `<filePath>/<sanitized name>`. It picks a content type from the sanitized name's suffix and returns the hosted URL `https://<bucket>.s3.<region>.amazonaws.com/<key>`.
- **`extractObjectKeyFromURL`** turns such a URL back into a key: the parsed path minus its first byte, which is its first character on the ASCII paths modelled here. `GetSignedURL`, `GetMetaData`, `GetFileStream` and `DeleteObject` all use it.
- **`GetMetaData`** reports as the file's name the last `/`-segment of the key.
- **`GetSignedURL`** falls back to a 20-minute default configuration. `Config.configureHeaders` copies the response-header overrides into the request.
- **`ListObjects`** walks the pages of a listing. It skips objects without a key, builds each object's hosted URL, and fails on the first page that cannot be fetched.

Calls into the AWS SDK become parameters that give their outcome:
- whether the client is nil;
- whether PutObject or HeadObject succeeded;
- the pages the paginator yields;
- the presigner's answer.

Failures are values of `Outcomes.Result`. The two slice panics in the code are the `SliceOutOfRange` failure:
- the negative slice bound when the extension alone exceeds 1024 bytes;
- `Path[1:]` on an empty path.

Modules:
- `Outcomes`: failures, results and options.
- `Text`: some of the Go `strings` primitives used. These are ASCII lower-casing, `LastIndex` with a one-character separator, and `len` as a UTF-8 byte count. `strings.ReplaceAll` and `strings.Trim` are in `Sanitize`, and `strings.Split` is in `ObjectKey`.
- `Sanitize` and `SanitizeProperties`: the file-name pipeline and its laws.
- `ObjectKey`: hosted URLs, key extraction, display names and `GetMetaData`.
- `Upload`: key composition, content type, the upload result and its round trips.
- `SignedUrl`: configuration, header overrides and presign requests.
- `Listing`: the listing loop.

## Model

| member | source | states |
|---|---|---|
| Text.ToLower | overlays/sales-tax-api-2/internal/aws/s3/main.go:234 | lower-casing keeps the length, leaves no ASCII upper-case letter, and maps each character on its own |
| Text.ToLowerFixedPoints | overlays/sales-tax-api-2/internal/aws/s3/main.go:234 | lower-casing leaves a string unchanged exactly when it has no upper-case letter |
| Text.LastIndexOf | overlays/sales-tax-api-2/internal/aws/s3/main.go:238 | no index exactly when the character is absent; otherwise an index holding it with no occurrence after it |
| Text.LastIndexUnique | overlays/sales-tax-api-2/internal/aws/s3/main.go:238 | any position holding the character with none after it is the one LastIndex reports |
| Text.Utf8Len | overlays/sales-tax-api-2/internal/aws/s3/main.go:254 | Go's len of a string, in bytes, is never less than its character count |
| Text.Utf8LenAscii | overlays/sales-tax-api-2/internal/aws/s3/main.go:254 | on ASCII text the byte length equals the character count |
| Sanitize.SplitExtension | overlays/sales-tax-api-2/internal/aws/s3/main.go:237-241 | base followed by extension is the input; no dot gives an empty extension; otherwise the extension starts at a dot and contains no other dot |
| SanitizeProperties.SplitUnique | overlays/sales-tax-api-2/internal/aws/s3/main.go:237-241 | any split whose extension is a dot followed by dot-free text is the split at the last dot |
| SanitizeProperties.ExtensionFromRawName | overlays/sales-tax-api-2/internal/aws/s3/main.go:237-241 | the extension is the lower-cased input from its last dot to the end, or empty when there is no dot |
| SanitizeProperties.NoDotMeansNoExtension | overlays/sales-tax-api-2/internal/aws/s3/main.go:237-241 | a name without a dot has an empty extension, never panics, and its sanitized form has no dot |
| Sanitize.ReplaceSpaces | overlays/sales-tax-api-2/internal/aws/s3/main.go:243-244 | same length, no space left, every space becomes exactly one `_`, every other character stays |
| Sanitize.CollapseFrom | overlays/sales-tax-api-2/internal/aws/s3/main.go:246-248 | the left-to-right scan never lengthens the text and writes only characters of `[a-z0-9._-]` |
| Sanitize.CollapseRuns | overlays/sales-tax-api-2/internal/aws/s3/main.go:246-248 | the replacement leaves only `[a-z0-9._-]`, changes nothing in text that already is, and makes up no `.`; CollapseRun, CollapseAppend and CollapseMaximalRun give its rule on runs |
| Sanitize.CollapseKeepsAllowed | overlays/sales-tax-api-2/internal/aws/s3/main.go:246-248 | text made only of allowed characters is not changed by the replacement |
| SanitizeProperties.CollapseAppend | overlays/sales-tax-api-2/internal/aws/s3/main.go:246-248 | the replacement of a concatenation is the replacement of each part, the second resumed in or out of a run |
| SanitizeProperties.CollapseRun | overlays/sales-tax-api-2/internal/aws/s3/main.go:246-248 | a non-empty run of disallowed characters becomes a single `_` |
| SanitizeProperties.CollapseMaximalRun | overlays/sales-tax-api-2/internal/aws/s3/main.go:246-248 | a maximal run of disallowed characters between allowed neighbours becomes exactly one `_` and nothing else changes |
| SanitizeProperties.SpaceNeverMerges | overlays/sales-tax-api-2/internal/aws/s3/main.go:243-248 | a space becomes its own `_`, which never merges with neighbouring runs |
| Sanitize.Trim | overlays/sales-tax-api-2/internal/aws/s3/main.go:250-251 | the result is a piece of the input with only `._-` characters before and after it, and it is empty or neither of its ends is one of `._-` |
| Sanitize.CleanBaseShape | overlays/sales-tax-api-2/internal/aws/s3/main.go:243-251 | the cleaned base has only `[a-z0-9._-]`, begins and ends with a letter or digit when non-empty, and gains no dot |
| SanitizeProperties.CleanBaseFixed | overlays/sales-tax-api-2/internal/aws/s3/main.go:243-251 | an already clean base passes replacement and trimming unchanged |
| Sanitize.SanitizeFileName | overlays/sales-tax-api-2/internal/aws/s3/main.go:232-261 | panics exactly when the extension is over 1024 bytes; otherwise the result ends with the extension, its base part is in `[a-z0-9._-]`, it has no upper-case letter and at most 1024 bytes |
| Sanitize.Assemble | overlays/sales-tax-api-2/internal/aws/s3/main.go:253-260 | fails with a slice panic exactly when the extension alone is over 1024 bytes; otherwise the result ends with the extension, and what precedes it is a prefix of the base, the whole base when it fits the budget and exactly the budget's length when not |
| Sanitize.AssembleShape | overlays/sales-tax-api-2/internal/aws/s3/main.go:253-260 | cutting and re-attaching keeps the extension whole, the base allowed, and the result within 1024 bytes, or panics on a negative bound |
| SanitizeProperties.TrimRule | overlays/sales-tax-api-2/internal/aws/s3/main.go:250-251 | without a cut the result is the cleaned base followed by the extension, and a non-empty base begins and ends with a letter or digit |
| SanitizeProperties.TruncationFillsBudget | overlays/sales-tax-api-2/internal/aws/s3/main.go:253-257 | a base longer than 1024 minus the extension's length is cut to exactly that length, making the result exactly 1024 bytes with the extension intact |
| SanitizeProperties.CutWithoutExtension | overlays/sales-tax-api-2/internal/aws/s3/main.go:238-257 | a name without `.` whose cleaned base is over 1024 characters sanitizes to exactly that base's first 1024 characters |
| SanitizeProperties.TruncationCanExposeSeparator | overlays/sales-tax-api-2/internal/aws/s3/main.go:250-257 | the cut comes after the trim, so 1023 letters followed by `_b` come out with a trailing `_` |
| SanitizeProperties.TrailingSeparatorTrimmed | overlays/sales-tax-api-2/internal/aws/s3/main.go:250-251 | 1023 letters followed by `_` sanitize to the letters alone |
| SanitizeProperties.CutNameNotStable | overlays/sales-tax-api-2/internal/aws/s3/main.go:232-261 | sanitizing the output of a cut that exposed a separator changes it again |
| SanitizeProperties.Idempotent | overlays/sales-tax-api-2/internal/aws/s3/main.go:232-261 | when the first call did not cut the base, sanitizing its output returns the same output |
| SanitizeProperties.ExampleMixedCase | overlays/sales-tax-api-2/internal/aws/s3/main.go:232-261 | `My File!!.CSV` becomes `my_file.csv` |
| SanitizeProperties.ExampleTwoSpaces | overlays/sales-tax-api-2/internal/aws/s3/main.go:243-248 | `a  b` becomes `a__b`: two spaces give two underscores |
| SanitizeProperties.ExampleHidden | overlays/sales-tax-api-2/internal/aws/s3/main.go:236-251 | `   .hidden` becomes `.hidden`: the base trims away, the extension stays |
| ObjectKey.HostedUrl | overlays/sales-tax-api-2/internal/aws/s3/main.go:131-135 | the location starts with `https://`, ends with `/` and the key, and for a host-safe bucket and region has no `/` between the scheme and that one; KeyRoundTrip reads the key back from it |
| ObjectKey.ParseHostedUrl | overlays/sales-tax-api-2/internal/aws/s3/main.go:221 | a parsed URL prints back as scheme, host and path, with a host-safe host and a path that is empty or starts with `/` |
| ObjectKey.ParsePrinted | overlays/sales-tax-api-2/internal/aws/s3/main.go:221 | every URL of the modelled shape parses back into its own host and path |
| ObjectKey.ExtractObjectKey | overlays/sales-tax-api-2/internal/aws/s3/main.go:220-229 | a parse error is reported as an error, an empty path panics (the only panic), and otherwise the key is the path with its first character removed |
| ObjectKey.KeyRoundTrip | overlays/sales-tax-api-2/internal/aws/s3/main.go:131-135 | the hosted URL of a path-safe key, for a host-safe bucket and region, gives back exactly that key |
| ObjectKey.HostOnlyUrlPanics | overlays/sales-tax-api-2/internal/aws/s3/main.go:227 | a hosted URL with nothing after the host has an empty path, and key extraction panics on it |
| ObjectKey.Split | overlays/sales-tax-api-2/internal/aws/s3/main.go:196 | `strings.Split` gives at least one piece; SplitPiecesLackSeparator, JoinSplit and SplitJoin pin the pieces down |
| ObjectKey.SplitPiecesLackSeparator | overlays/sales-tax-api-2/internal/aws/s3/main.go:196 | no piece of `strings.Split` holds the separator |
| ObjectKey.JoinSplit | overlays/sales-tax-api-2/internal/aws/s3/main.go:196 | joining the pieces of `strings.Split` with the separator gives the string back |
| ObjectKey.SplitJoin | overlays/sales-tax-api-2/internal/aws/s3/main.go:196 | splitting a join of separator-free pieces gives the pieces back |
| ObjectKey.SeveralPiecesIffSeparator | overlays/sales-tax-api-2/internal/aws/s3/main.go:196 | `strings.Split` gives several pieces exactly when the separator occurs |
| ObjectKey.DisplayName | overlays/sales-tax-api-2/internal/aws/s3/main.go:196 | the name is a suffix of the key without `/`, and is either the whole key or preceded by a `/` |
| ObjectKey.DisplayNameUnique | overlays/sales-tax-api-2/internal/aws/s3/main.go:196 | any suffix with those three properties is the display name |
| ObjectKey.DisplayNameIsLastPiece | overlays/sales-tax-api-2/internal/aws/s3/main.go:196 | the display name is the last element of `strings.Split(key, "/")` |
| ObjectKey.NameAfterLastSlash | overlays/sales-tax-api-2/internal/aws/s3/main.go:196 | the display name of `prefix/name` is `name` exactly when `name` has no `/` |
| ObjectKey.MetaDataName | overlays/sales-tax-api-2/internal/aws/s3/main.go:179-200 | key-extraction failures pass through, a failed HeadObject is reported, and otherwise the name is the `/`-free suffix of the key that is the whole key or follows a `/` |
| ObjectKey.MetaDataNameOfHostedUrl | overlays/sales-tax-api-2/internal/aws/s3/main.go:179-200 | for the hosted URL of `prefix/name` the reported name is `name` |
| Upload.ObjectKeyFor | overlays/sales-tax-api-2/internal/aws/s3/main.go:109 | the key is the directory as given, one `/`, then the name, and has the name as display name exactly when the name has no `/` |
| Upload.ContentTypeFor | overlays/sales-tax-api-2/internal/aws/s3/main.go:111-117 | `text/csv` exactly for a `.csv` suffix, `application/pdf` exactly for `.pdf`, `application/octet-stream` exactly for neither |
| Upload.PlanUpload | overlays/sales-tax-api-2/internal/aws/s3/main.go:101-124 | a nil client is refused first, then the sanitizer's panic passes through; otherwise the request carries the bucket, the key `<filePath>/<sanitized>` and that name's content type |
| Upload.UploadFile | overlays/sales-tax-api-2/internal/aws/s3/main.go:101-138 | succeeds exactly when the client is present, the name does not panic and PutObject succeeds, with the key's hosted URL as the result; each failure is reported as such |
| Upload.SuffixFollowsName | overlays/sales-tax-api-2/internal/aws/s3/main.go:107-117 | the sanitized name ends in a dot-suffix such as `.csv` exactly when the lower-cased input does |
| Upload.ContentTypeFollowsName | overlays/sales-tax-api-2/internal/aws/s3/main.go:107-117 | the content type is decided by the input's own ending, ignoring ASCII case |
| Upload.UpperCaseCsv | overlays/sales-tax-api-2/internal/aws/s3/main.go:107-117 | `R.CSV` is stored as `<filePath>/r.csv` with content type `text/csv` |
| Upload.UploadRoundTrip | overlays/sales-tax-api-2/internal/aws/s3/main.go:107-135 | the location returned by an upload gives back the stored key when the directory and the extension are path-safe |
| Upload.UploadedNameShown | overlays/sales-tax-api-2/internal/aws/s3/main.go:107-109 | the display name of an uploaded key is the sanitized name exactly when the extension has no `/` |
| SignedUrl.ConfigureHeaders | overlays/sales-tax-api-2/internal/aws/s3/main.go:43-50 | each header the config sets replaces the request's; unset headers, the bucket and the key stay as they were |
| SignedUrl.ConfigureHeadersIdempotent | overlays/sales-tax-api-2/internal/aws/s3/main.go:43-50 | applying the same config twice is applying it once |
| SignedUrl.NoHeadersNoChange | overlays/sales-tax-api-2/internal/aws/s3/main.go:43-50 | a config with both headers nil leaves the request unchanged |
| SignedUrl.ConfigureHeadersCompose | overlays/sales-tax-api-2/internal/aws/s3/main.go:43-50 | applying two configs in turn is applying one where the later config's set headers take precedence |
| SignedUrl.DefaultConfig | overlays/sales-tax-api-2/internal/aws/s3/main.go:52-57 | the default has no header overrides and a 20-minute (1.2e12 ns) expiry |
| SignedUrl.PrepareSignedUrl | overlays/sales-tax-api-2/internal/aws/s3/main.go:140-161 | key-extraction failures pass through; otherwise the request names the bucket and key, and takes expiry and headers from the given config, or the 20-minute default without headers when none is given |
| SignedUrl.MissingConfigIsDefault | overlays/sales-tax-api-2/internal/aws/s3/main.go:146-150 | passing no config is the same as passing the default config |
| SignedUrl.GetSignedUrl | overlays/sales-tax-api-2/internal/aws/s3/main.go:140-167 | succeeds exactly when the key is extracted and the presigner answers; a presigner failure is reported |
| SignedUrl.SignsTheHostedKey | overlays/sales-tax-api-2/internal/aws/s3/main.go:140-157 | a signed URL requested for a printed hosted URL signs that URL's own bucket and key |
| Listing.AppendPageUrls | overlays/sales-tax-api-2/internal/aws/s3/main.go:280-292 | one page adds the hosted URLs of its keyed objects, in order, after the URLs already collected |
| Listing.ListObjectUrls | overlays/sales-tax-api-2/internal/aws/s3/main.go:263-296 | a nil client or any failing page is an error; otherwise one hosted URL per keyed object of all pages, in order |
| Listing.ListedKeysIgnorePaging | overlays/sales-tax-api-2/internal/aws/s3/main.go:274-293 | how objects are split into pages does not change the listed keys |
| Listing.PresentKeysExactly | overlays/sales-tax-api-2/internal/aws/s3/main.go:280-284 | a key is listed exactly when some object carries it |
| Listing.NothingSkippedWithoutNil | overlays/sales-tax-api-2/internal/aws/s3/main.go:280-291 | without nil keys every object is listed, in order |

## Left out

- AWS SDK calls are not modelled: PutObject, GetObject, HeadObject, the ListObjectsV2 paginator, DeleteObject with its waiter, and the presigner. They are network I/O. Their outcomes are parameters, or the model stops at the request it would send.
- `NewDefaultS3Service` is not modelled. It only loads configuration and the environment (`AWS_REGION`, `AWS_BUCKET`, `AWS_ENDPOINT_URL`); bucket and region are parameters here.
- Logging, `context` cancellation and the 30-second deletion wait are not modelled.
- `GetFileStream` and `DeleteObject` are not modelled as operations. Their only pure step is `ExtractObjectKey`; the rest is SDK calls.
- `DeleteObject` extracts the key from its `fileName` argument and never uses `filePath`. This is noted but not modelled further.
- `GetMetaData` copies size, content type, disposition, last-modified time and user metadata from the SDK's answer. Only the name is modelled, because the rest is not computed.
- ObjectKey.ParseHostedUrl covers Go's `url.Parse` only for `https://<host><path>`. The host has only `[a-z0-9.-]`. The path is empty or starts with `/`. It may hold the space, visible ASCII and any non-ASCII character, except `?`, `#` and `%`. Go reads those three as the start of a query, the start of a fragment and an escape, so a path holding them does not come back unchanged. Control characters and DEL are excluded because `url.Parse` rejects them. Percent-decoding, queries, fragments, ports, user info and relative references are outside it, and it returns no result there. `ExtractObjectKey` itself takes any parse outcome.
- Text.ToLower: lower-cases ASCII letters only. Go's `strings.ToLower` maps every Unicode letter; other characters are kept unchanged here. The claim that the output has no upper-case letter is therefore stated for ASCII.
- Sanitize.SanitizeFileName: the 1024 limit is in bytes as in the code. The base is ASCII after filtering, so its bytes are its characters. Non-ASCII characters are counted by their UTF-8 width only in the extension. Because lower-casing is ASCII-only (see Text.ToLower), three things differ from Go. First, Go's lower-casing can change a character's UTF-8 width: `Ⱥ` (U+023A, 2 bytes) becomes `ⱥ` (U+2C65, 3 bytes). So, for an extension holding such letters, Go's panic threshold and cut length differ from the model's. Second, Go can turn a non-ASCII character into an allowed ASCII letter: the Kelvin sign U+212A becomes `k` and survives the filter, where the model writes `_` for it. Third, strings here are sequences of Unicode scalar values, so file names that are not valid UTF-8 are outside the model.
- SanitizeProperties.Idempotent: requires that the first call did not cut the base. A cut can leave a trailing `_`, `.` or `-` that a second call trims. `CutNameNotStable` exhibits this.
- SignedUrl.DefaultConfig: the expiry is an unbounded integer of nanoseconds rather than Go's 64-bit `time.Duration`. 20 minutes is far from the bound.
- ObjectKey.ExtractObjectKey: drops the path's first character, while Go's `Path[1:]` drops its first byte. They differ when a parsed path starts with a non-ASCII character: for the relative reference `é/x` Go keeps the second byte of `é`, the model keeps `/x`. Paths from `ParseHostedUrl` always start with `/`.
- ObjectKey.MetaDataName: `GetMetaData` calls HeadObject without checking for a nil client, so a nil client panics there. The model only takes HeadObject's outcome and does not express that panic. `GetFileStream` does the same with GetObject, and `GetSignedURL` uses the presigner without a nil check.
- SignedUrl.PrepareSignedUrl: the SDK's handling of a zero expiry is not modelled. A caller's config with `ExpiryTime` 0 is passed through as 0.

## Behaviour worth knowing

- **Spaces.** Runs of spaces are not collapsed: each space becomes its own `_` (`ExampleTwoSpaces`), because `_` is itself allowed by the regular expression.
- **Long extensions.** The base is not clamped to zero length when the extension alone exceeds 1024 bytes. The slice gets a negative bound and panics (`SanitizeFileName`'s `SliceOutOfRange`).
- **`"   .hidden"`.** The base trims away and the result is `.hidden` (`ExampleHidden`).
- **Idempotence.** Sanitizing twice is sanitizing once only when the first call made no cut. A cut can expose a separator that the second call trims (`CutNameNotStable`).
- **Limits and separators.** The 1024 limit counts bytes, not characters, and a sanitized name can end in a separator after a cut (`TruncationCanExposeSeparator`).
- **Keys that do not survive the location string.** `Upload` prints the key into the URL without escaping it. Only the base of the name is filtered, so a directory or an extension holding `?`, `#` or `%` yields a location whose extracted key is different: cut at the query or fragment, or percent-decoded. The round-trip lemmas (`KeyRoundTrip`, `UploadRoundTrip`, `SignsTheHostedKey`, `MetaDataNameOfHostedUrl`) require keys without these three characters for that reason.
- **URL parsing.** Go's `url.Parse` accepts most strings as relative references. `not a url` parses with path `not a url`, so its key would be `ot a url`, and no error is reported. The model leaves the parse outcome to the caller of `ExtractObjectKey`.
