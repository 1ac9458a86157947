/** DefaultS3Service.Upload: the object key and content type chosen for a
    file, the location string returned, and how that location, the content
    type and the display name relate back to the name the caller gave. */
module Upload {
  import opened Outcomes
  import opened Text
  import opened Sanitize
  import opened ObjectKey
  import SanitizeProperties

  /** The key an upload is stored under: `<filePath>/<sanitized name>`.
      The directory is kept as given and followed by one '/' and the name,
      which may itself hold a '/' from its extension; the key's display name is the
      name exactly when the name has no '/' of its own. */
  function ObjectKeyFor(filePath: string, sanitized: string): (key: string)
    ensures |key| == |filePath| + 1 + |sanitized|
    ensures key[..|filePath|] == filePath && EndsWith(key, sanitized)
    ensures key[|filePath|] == '/'
    ensures DisplayName(key) == sanitized <==> '/' !in sanitized
  {
    NameAfterLastSlash(filePath, sanitized);
    var key := filePath + "/" + sanitized;
    assert key[|key| - |sanitized|..] == sanitized;
    key
  }

  const TextCsv: string := "text/csv"
  const ApplicationPdf: string := "application/pdf"
  const OctetStream: string := "application/octet-stream"

  /** The content type stored with an upload, chosen by the sanitized
      name's suffix; ".csv" wins over ".pdf" (they cannot both match). */
  function ContentTypeFor(sanitized: string): (t: string)
    ensures t == TextCsv <==> EndsWith(sanitized, ".csv")
    ensures t == ApplicationPdf <==> EndsWith(sanitized, ".pdf")
    ensures t == OctetStream <==> !EndsWith(sanitized, ".csv") && !EndsWith(sanitized, ".pdf")
  {
    if EndsWith(sanitized, ".csv") then TextCsv
    else if EndsWith(sanitized, ".pdf") then ApplicationPdf
    else OctetStream
  }

  /** What Upload hands to PutObject, apart from the bytes themselves. */
  datatype PutRequest = PutRequest(bucket: string, key: string, contentType: string)

  /** Upload up to the PutObject call: refuse a nil client, sanitize the
      name (which may panic), then compose key and content type. */
  function PlanUpload(clientPresent: bool, bucket: string, filePath: string, fileName: string)
    : (r: Result<PutRequest>)
    ensures !clientPresent ==> r == Err(NilClient)
    ensures clientPresent && SanitizeFileName(fileName).Err? ==> r == Err(SliceOutOfRange)
    ensures r.Ok? <==> clientPresent && SanitizeFileName(fileName).Ok?
    ensures r.Ok? ==> r.value.bucket == bucket
    ensures r.Ok? ==> r.value.key == ObjectKeyFor(filePath, SanitizeFileName(fileName).value)
    ensures r.Ok? ==> r.value.contentType == ContentTypeFor(SanitizeFileName(fileName).value)
  {
    if !clientPresent then Err(NilClient)
    else
      match SanitizeFileName(fileName)
      case Err(f) => Err(f)
      case Ok(name) => Ok(PutRequest(bucket, ObjectKeyFor(filePath, name), ContentTypeFor(name)))
  }

  /** Upload as a whole: the PutObject outcome is a parameter, and on
      success the location is the hosted URL of the key. */
  function UploadFile(clientPresent: bool, bucket: string, region: string,
                      filePath: string, fileName: string, putSucceeded: bool)
    : (r: Result<string>)
    ensures r.Ok? <==> clientPresent && SanitizeFileName(fileName).Ok? && putSucceeded
    ensures PlanUpload(clientPresent, bucket, filePath, fileName).Err? ==>
              r == Err(PlanUpload(clientPresent, bucket, filePath, fileName).failure)
    ensures PlanUpload(clientPresent, bucket, filePath, fileName).Ok? && !putSucceeded ==>
              r == Err(PutObjectFailed)
    ensures r.Ok? ==> r.value == HostedUrl(bucket, region, ObjectKeyFor(filePath, SanitizeFileName(fileName).value))
  {
    match PlanUpload(clientPresent, bucket, filePath, fileName)
    case Err(f) => Err(f)
    case Ok(req) => if putSucceeded then Ok(HostedUrl(bucket, region, req.key)) else Err(PutObjectFailed)
  }

  // ---------------------------------------------------------------------
  // Suffixes through sanitizing
  // ---------------------------------------------------------------------

  /** A suffix that is a dot followed by dot-free text, like ".csv". */
  predicate DotSuffix(sfx: string) {
    |sfx| > 0 && sfx[0] == '.' && '.' !in sfx[1..]
  }

  /** A string without a dot has no dot-suffix. */
  lemma DotlessLacksSuffix(x: string, sfx: string)
    requires '.' !in x
    requires DotSuffix(sfx)
    ensures !EndsWith(x, sfx)
  {
    if |sfx| <= |x| {
      assert x[|x| - |sfx|..][0] == x[|x| - |sfx|];
    }
  }

  /** When a string ends in a dot-suffix `e`, it ends in another dot-suffix
      exactly when the two are equal: both start at the string's last dot. */
  lemma SuffixVsExtension(y: string, e: string, sfx: string)
    requires DotSuffix(e) && DotSuffix(sfx)
    ensures EndsWith(y + e, sfx) <==> e == sfx
  {
    var x := y + e;
    assert x[|y|..] == e;
    assert x[|y| + 1..] == e[1..];
    LastIndexUnique(x, '.', |y|);
    if EndsWith(x, sfx) {
      assert x[|x| - |sfx| + 1..] == sfx[1..];
      LastIndexUnique(x, '.', |x| - |sfx|);
    }
  }

  /** The sanitized name ends in a dot-suffix exactly when the lower-cased
      input does: the extension decides, and it is kept verbatim. */
  lemma SuffixFollowsName(name: string, sfx: string)
    requires DotSuffix(sfx)
    requires Utf8Len(ExtensionOf(name)) <= MaxNameLength
    ensures EndsWith(SanitizeFileName(name).value, sfx) <==> EndsWith(ToLower(name), sfx)
  {
    var s := SanitizeFileName(name).value;
    var lower := ToLower(name);
    var parts := SplitExtension(lower);
    var e := parts.ext;
    assert s == s[..|s| - |e|] + e;
    SanitizeProperties.DotsSurviveLowering(name);
    if '.' in lower {
      SuffixVsExtension(parts.base, e, sfx);
      SuffixVsExtension(s[..|s| - |e|], e, sfx);
    } else {
      SanitizeProperties.NoDotMeansNoExtension(name);
      DotlessLacksSuffix(s, sfx);
      DotlessLacksSuffix(lower, sfx);
    }
  }

  /** Two strings with the same `.csv` and `.pdf` endings get the content
      type the other one's endings call for. */
  lemma ContentTypeOfSameEndings(s: string, other: string)
    requires EndsWith(s, ".csv") <==> EndsWith(other, ".csv")
    requires EndsWith(s, ".pdf") <==> EndsWith(other, ".pdf")
    ensures var t := ContentTypeFor(s);
            (t == TextCsv <==> EndsWith(other, ".csv"))
            && (t == ApplicationPdf <==> EndsWith(other, ".pdf"))
            && (t == OctetStream <==> !EndsWith(other, ".csv") && !EndsWith(other, ".pdf"))
  {
  }

  /** The content type depends only on how the name given ends, ignoring
      ASCII case. */
  lemma ContentTypeFollowsName(name: string)
    requires Utf8Len(ExtensionOf(name)) <= MaxNameLength
    ensures var t := ContentTypeFor(SanitizeFileName(name).value);
            (t == TextCsv <==> EndsWith(ToLower(name), ".csv"))
            && (t == ApplicationPdf <==> EndsWith(ToLower(name), ".pdf"))
            && (t == OctetStream <==> !EndsWith(ToLower(name), ".csv") && !EndsWith(ToLower(name), ".pdf"))
  {
    var csv, pdf := ".csv", ".pdf";
    assert DotSuffix(csv) && DotSuffix(pdf);
    SuffixFollowsName(name, csv);
    SuffixFollowsName(name, pdf);
    ContentTypeOfSameEndings(SanitizeFileName(name).value, ToLower(name));
  }

  lemma UpperCaseCsvParts()
    ensures PartsOf("R.CSV") == NameParts("r", ".csv")
  {
    assert ToLower("R.CSV") == "r.csv";
    SanitizeProperties.SplitUnique("r.csv", "r", ".csv");
  }

  lemma UpperCaseCsvAssemble()
    ensures Assemble("r", ".csv") == Ok("r.csv")
  {
    assert Utf8Len(".csv") == 4;
    assert "r" + ".csv" == "r.csv";
  }

  /** `R.CSV` is only lower-cased. */
  lemma UpperCaseCsvSanitized()
    ensures SanitizeFileName("R.CSV") == Ok("r.csv")
  {
    UpperCaseCsvParts();
    SanitizeProperties.CleanBaseFixed("r");
    SanitizeProperties.ByStages("R.CSV", "r", ".csv", "r");
    UpperCaseCsvAssemble();
  }

  /** An upper-case ".CSV" still gets the CSV content type. */
  lemma UpperCaseCsv(bucket: string, filePath: string)
    ensures PlanUpload(true, bucket, filePath, "R.CSV")
         == Ok(PutRequest(bucket, ObjectKeyFor(filePath, "r.csv"), TextCsv))
  {
    UpperCaseCsvSanitized();
    var name := "r.csv";
    assert EndsWith(name, ".csv") by {
      assert name[|name| - 4..] == ".csv";
    }
    assert ContentTypeFor(name) == TextCsv;
  }

  // ---------------------------------------------------------------------
  // Round trips through the location string
  // ---------------------------------------------------------------------

  /** The base part of a sanitized name is safe in a URL path. */
  lemma AllowedIsPathSafe(s: string)
    requires AllAllowed(s)
    ensures PathSafe(s)
    ensures '/' !in s
  {
    assert forall i :: 0 <= i < |s| ==> Allowed(s[i]);
  }

  /** The sanitized name is the allowed base followed by the extension. */
  lemma SanitizedSplit(name: string)
    requires Utf8Len(ExtensionOf(name)) <= MaxNameLength
    ensures var s := SanitizeFileName(name).value;
            var p := s[..|s| - |ExtensionOf(name)|];
            s == p + ExtensionOf(name) && PathSafe(p) && '/' !in p
  {
    var s := SanitizeFileName(name).value;
    var p := s[..|s| - |ExtensionOf(name)|];
    assert s == p + ExtensionOf(name);
    AllowedIsPathSafe(p);
  }

  /** Path-safe pieces make a path-safe key. */
  lemma KeyPathSafe(filePath: string, p: string, ext: string)
    requires PathSafe(filePath) && PathSafe(p) && PathSafe(ext)
    ensures PathSafe(ObjectKeyFor(filePath, p + ext))
  {
    var key := ObjectKeyFor(filePath, p + ext);
    forall i | 0 <= i < |key| ensures IsPathChar(key[i]) {
      if i < |filePath| {
        assert key[i] == filePath[i];
      } else if i == |filePath| {
        assert key[i] == '/';
      } else if i < |filePath| + 1 + |p| {
        assert key[i] == p[i - |filePath| - 1];
      } else {
        assert key[i] == ext[i - |filePath| - 1 - |p|];
      }
    }
  }

  /** The key stored by Upload is the key read back from the location it
      returns, as long as the directory and the extension are path-safe. */
  lemma UploadRoundTrip(bucket: string, region: string, filePath: string, fileName: string)
    requires HostSafe(bucket) && HostSafe(region)
    requires PathSafe(filePath) && PathSafe(ExtensionOf(fileName))
    requires Utf8Len(ExtensionOf(fileName)) <= MaxNameLength
    ensures UploadFile(true, bucket, region, filePath, fileName, true).Ok?
    ensures var loc := UploadFile(true, bucket, region, filePath, fileName, true).value;
            ParseHostedUrl(loc).Some?
            && ExtractObjectKey(Ok(ParseHostedUrl(loc).value))
               == Ok(PlanUpload(true, bucket, filePath, fileName).value.key)
  {
    var s := SanitizeFileName(fileName).value;
    SanitizedSplit(fileName);
    var ext := ExtensionOf(fileName);
    var p := s[..|s| - |ext|];
    KeyPathSafe(filePath, p, ext);
    var key := ObjectKeyFor(filePath, s);
    assert PathSafe(key);
    KeyRoundTrip(bucket, region, key);
  }

  /** GetMetaData on an uploaded file reports the sanitized name exactly
      when the extension has no '/' of its own. */
  lemma UploadedNameShown(filePath: string, fileName: string)
    requires Utf8Len(ExtensionOf(fileName)) <= MaxNameLength
    ensures var s := SanitizeFileName(fileName).value;
            DisplayName(ObjectKeyFor(filePath, s)) == s <==> '/' !in ExtensionOf(fileName)
  {
    var s := SanitizeFileName(fileName).value;
    SanitizedSplit(fileName);
    NameAfterLastSlash(filePath, s);
  }
}
