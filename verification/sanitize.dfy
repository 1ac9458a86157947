/** sanitizeFileName: the pipeline that turns an untrusted upload file name
    into the last segment of an S3 object key.

    The stages, in the order the Go code applies them: lower-case the whole
    name; split it at the last '.'; in the base only, turn every space into
    '_', collapse every maximal run of characters outside [a-z0-9._-] into one
    '_', and trim '.', '_' and '-' from both ends; cut the base so that base
    and extension together fit in 1024 bytes; re-attach the extension, which
    is only lower-cased, never filtered or cut. */
module Sanitize {
  import opened Outcomes
  import opened Text

  /** The byte budget for base plus extension. */
  const MaxNameLength: int := 1024

  /** Members of the character class [a-z0-9._-]. */
  predicate Allowed(c: char) {
    IsAsciiLower(c) || IsDigit(c) || c == '.' || c == '_' || c == '-'
  }

  predicate AllAllowed(s: string) {
    forall i :: 0 <= i < |s| ==> Allowed(s[i])
  }

  /** The cutset "._-" passed to strings.Trim. */
  predicate InTrimSet(c: char) {
    c == '.' || c == '_' || c == '-'
  }

  /** A name split at its last '.': the extension keeps the dot. */
  datatype NameParts = NameParts(base: string, ext: string)

  /** Splits at the last '.'; without a '.', everything is base. */
  function SplitExtension(s: string): (p: NameParts)
    ensures p.base + p.ext == s
    ensures '.' !in s ==> p.ext == []
    ensures '.' in s ==> |p.ext| > 0 && p.ext[0] == '.' && '.' !in p.ext[1..]
  {
    match LastIndexOf(s, '.')
    case None => NameParts(s, [])
    case Some(i) =>
      assert s[i..][1..] == s[i + 1..];
      NameParts(s[..i], s[i..])
  }

  /** strings.ReplaceAll(s, " ", "_"): one '_' per space, nothing merged. */
  function ReplaceSpaces(s: string): (r: string)
    ensures |r| == |s|
    ensures ' ' !in r
    ensures forall i :: 0 <= i < |s| && s[i] != ' ' ==> r[i] == s[i]
    ensures forall i :: 0 <= i < |s| && s[i] == ' ' ==> r[i] == '_'
  {
    seq(|s|, i requires 0 <= i < |s| => if s[i] == ' ' then '_' else s[i])
  }

  /** The regular-expression replacement of [^a-z0-9._-]+ by "_", read
      left to right: `inRun` says that the previous character was disallowed
      and its run has already been written as '_'. Only allowed characters
      come out. */
  function CollapseFrom(s: string, inRun: bool): (r: string)
    ensures |r| <= |s|
    ensures AllAllowed(r)
  {
    if s == [] then []
    else if Allowed(s[0]) then [s[0]] + CollapseFrom(s[1..], false)
    else if inRun then CollapseFrom(s[1..], true)
    else ['_'] + CollapseFrom(s[1..], true)
  }

  /** A string made only of allowed characters passes the regular-expression
      replacement unchanged. */
  lemma {:induction false} CollapseKeepsAllowed(s: string, inRun: bool)
    requires AllAllowed(s)
    ensures CollapseFrom(s, inRun) == s
    decreases |s|
  {
    if s != [] {
      CollapseKeepsAllowed(s[1..], false);
      assert s == [s[0]] + s[1..];
    }
  }

  /** The replacement writes only '_', so it never introduces a '.'. */
  lemma {:induction false} CollapseRunsNoNewDot(s: string, inRun: bool)
    requires '.' !in s
    ensures '.' !in CollapseFrom(s, inRun)
    decreases |s|
  {
    if s != [] {
      assert '.' !in s[1..] by {
        assert forall c :: c in s[1..] ==> c in s;
      }
      CollapseRunsNoNewDot(s[1..], !Allowed(s[0]));
    }
  }

  /** regexp.MustCompile(`[^a-z0-9._-]+`).ReplaceAllString(s, "_"): the
      result is allowed-only, text that already is passes unchanged, and no
      '.' is made up. */
  function CollapseRuns(s: string): (r: string)
    ensures |r| <= |s|
    ensures AllAllowed(r)
    ensures AllAllowed(s) ==> r == s
    ensures '.' !in s ==> '.' !in r
  {
    var r := CollapseFrom(s, false);
    assert AllAllowed(s) ==> r == s by {
      if AllAllowed(s) {
        CollapseKeepsAllowed(s, false);
      }
    }
    assert '.' !in s ==> '.' !in r by {
      if '.' !in s {
        CollapseRunsNoNewDot(s, false);
      }
    }
    r
  }

  /** Where strings.TrimLeft(s, "._-") starts: the index of the first
      character outside the cutset, or |s|. */
  function TrimStart(s: string): (i: nat)
    ensures i <= |s|
    ensures i < |s| ==> !InTrimSet(s[i])
    ensures forall k :: 0 <= k < i ==> InTrimSet(s[k])
  {
    if s == [] || !InTrimSet(s[0]) then 0 else 1 + TrimStart(s[1..])
  }

  /** Where strings.TrimRight(s, "._-") ends: one past the last character
      outside the cutset, or 0. */
  function TrimEnd(s: string): (j: nat)
    ensures j <= |s|
    ensures 0 < j ==> !InTrimSet(s[j - 1])
    ensures forall k :: j <= k < |s| ==> InTrimSet(s[k])
  {
    if s == [] || !InTrimSet(s[|s| - 1]) then |s| else TrimEnd(s[..|s| - 1])
  }

  /** `r` is the piece of `s` starting at `i`, and everything around it is
      a cutset character. */
  predicate TrimmedAt(s: string, r: string, i: int) {
    0 <= i <= |s| - |r| && r == s[i..i + |r|]
    && forall k :: 0 <= k < |s| && (k < i || i + |r| <= k) ==> InTrimSet(s[k])
  }

  /** strings.Trim(s, "._-"): TrimLeft, then TrimRight. The result is a
      piece of the input with only cutset characters around it, and it
      neither starts nor ends with a cutset character. */
  function Trim(s: string): (r: string)
    ensures |r| <= |s|
    ensures exists i :: TrimmedAt(s, r, i)
    ensures r == [] || (!InTrimSet(r[0]) && !InTrimSet(r[|r| - 1]))
  {
    var t := s[TrimStart(s)..];
    TrimWindow(s);
    t[..TrimEnd(t)]
  }

  /** What TrimLeft and TrimRight remove lies outside one window of `s`. */
  lemma TrimWindow(s: string)
    ensures var i := TrimStart(s); var t := s[i..];
            TrimmedAt(s, t[..TrimEnd(t)], i)
  {
    var i := TrimStart(s);
    var t := s[i..];
    var j := TrimEnd(t);
    var r := t[..j];
    assert r == s[i..i + j] by {
      assert forall k :: 0 <= k < j ==> r[k] == t[k] == s[i + k];
    }
    forall k | 0 <= k < |s| && (k < i || i + j <= k)
      ensures InTrimSet(s[k])
    {
      if i + j <= k {
        assert s[k] == t[k - i];
      }
    }
  }

  /** The base after replacement, collapsing and trimming, before the length
      cut. */
  function CleanBase(base: string): string {
    Trim(CollapseRuns(ReplaceSpaces(base)))
  }

  /** A cleaned base holds only allowed characters and, when non-empty,
      starts and ends with a letter or digit; it has a '.' only where the
      raw base had one. */
  lemma CleanBaseShape(base: string)
    ensures AllAllowed(CleanBase(base))
    ensures var r := CleanBase(base);
      r == [] || (IsLowerAlnum(r[0]) && IsLowerAlnum(r[|r| - 1]))
    ensures '.' !in base ==> '.' !in CleanBase(base)
  {
    var spaced := ReplaceSpaces(base);
    var c := CollapseRuns(spaced);
    TrimOfAllowed(c);
    if '.' !in base {
      assert '.' !in spaced;
    }
  }

  /** Trimming allowed text leaves allowed text that starts and ends with a
      letter or digit, and brings in no '.'. */
  lemma TrimOfAllowed(c: string)
    requires AllAllowed(c)
    ensures AllAllowed(Trim(c))
    ensures var r := Trim(c); r == [] || (IsLowerAlnum(r[0]) && IsLowerAlnum(r[|r| - 1]))
    ensures '.' !in c ==> '.' !in Trim(c)
  {
  }

  /** The lower-cased name, split at its last '.'. */
  function PartsOf(name: string): NameParts {
    SplitExtension(ToLower(name))
  }

  /** The extension as the sanitizer re-attaches it: the lower-cased name
      from its last '.' to the end, or empty when there is no '.'. */
  function ExtensionOf(name: string): string {
    PartsOf(name).ext
  }

  /** The cleaned base before the length cut. */
  function BaseOf(name: string): string {
    CleanBase(PartsOf(name).base)
  }

  /** The base budget 1024 - len(extension); negative for an extension of
      more than 1024 bytes. */
  function MaxBaseLength(name: string): int {
    MaxNameLength - Utf8Len(ExtensionOf(name))
  }

  /** Whether the length cut shortens the cleaned base. */
  predicate Truncates(name: string) {
    |BaseOf(name)| > MaxBaseLength(name)
  }

  /** sanitizeFileName. A panic (a negative slice bound) when the extension
      alone is longer than 1024 bytes; otherwise the sanitized name, which
      ends with the unmodified extension, has a base made of [a-z0-9._-]
      only, no upper-case letter anywhere, and at most 1024 bytes. */
  function SanitizeFileName(name: string): (r: Result<string>)
    ensures r.Ok? <==> Utf8Len(ExtensionOf(name)) <= MaxNameLength
    ensures r.Err? ==> r.failure == SliceOutOfRange && IsPanic(r.failure)
    ensures r.Ok? ==> EndsWith(r.value, ExtensionOf(name))
    ensures r.Ok? ==> AllAllowed(r.value[..|r.value| - |ExtensionOf(name)|])
    ensures r.Ok? ==> NoAsciiUpper(r.value)
    ensures r.Ok? ==> Utf8Len(r.value) <= MaxNameLength
  {
    var parts := PartsOf(name);
    var base := CleanBase(parts.base);
    ExtensionLower(name);
    CleanBaseShape(parts.base);
    AssembleShape(base, parts.ext);
    Assemble(base, parts.ext)
  }

  /** The length cut and re-attachment: the base is cut to
      1024 - len(ext) bytes when longer, which is a negative slice bound
      (a panic) when the extension alone exceeds the budget. */
  function Assemble(base: string, ext: string): (r: Result<string>)
    ensures r.Err? <==> Utf8Len(ext) > MaxNameLength
    ensures r.Err? ==> r.failure == SliceOutOfRange
    ensures r.Ok? ==> EndsWith(r.value, ext)
    ensures r.Ok? ==>
              var kept := r.value[..|r.value| - |ext|];
              var budget := MaxNameLength - Utf8Len(ext);
              kept <= base && |kept| == (if |base| <= budget then |base| else budget)
  {
    var maxBase := MaxNameLength - Utf8Len(ext);
    if |base| > maxBase then
      if maxBase < 0 then Err(SliceOutOfRange) else Ok(base[..maxBase] + ext)
    else Ok(base + ext)
  }

  /** What Assemble produces from a clean base and a lower-case extension. */
  lemma AssembleShape(base: string, ext: string)
    requires AllAllowed(base)
    requires NoAsciiUpper(ext)
    ensures var r := Assemble(base, ext);
      && (r.Ok? <==> Utf8Len(ext) <= MaxNameLength)
      && (r.Err? ==> r.failure == SliceOutOfRange)
      && (r.Ok? ==> EndsWith(r.value, ext))
      && (r.Ok? ==> AllAllowed(r.value[..|r.value| - |ext|]))
      && (r.Ok? ==> NoAsciiUpper(r.value))
      && (r.Ok? ==> Utf8Len(r.value) <= MaxNameLength)
  {
    var maxBase := MaxNameLength - Utf8Len(ext);
    if |base| > maxBase && maxBase >= 0 {
      var kept := base[..maxBase];
      assert AllAllowed(kept) by {
        assert forall i :: 0 <= i < |kept| ==> kept[i] == base[i];
      }
      Joined(kept, ext);
    } else if |base| <= maxBase {
      Joined(base, ext);
    }
  }

  /** The extension is a piece of the lower-cased name. */
  lemma ExtensionLower(name: string)
    ensures NoAsciiUpper(ExtensionOf(name))
  {
    var lowered := ToLower(name);
    var ext := ExtensionOf(name);
    assert ext == lowered[|lowered| - |ext|..];
  }

  /** What re-attaching an extension to a cleaned base yields. */
  lemma Joined(base: string, ext: string)
    requires AllAllowed(base)
    requires NoAsciiUpper(ext)
    ensures EndsWith(base + ext, ext)
    ensures (base + ext)[..|base|] == base
    ensures NoAsciiUpper(base + ext)
    ensures Utf8Len(base + ext) == |base| + Utf8Len(ext)
  {
    AsciiLength(base);
    Utf8LenAppend(base, ext);
    assert (base + ext)[|base|..] == ext;
  }

  /** An allowed-only string is ASCII, so its byte length is its length. */
  lemma AsciiLength(s: string)
    requires AllAllowed(s)
    ensures Utf8Len(s) == |s|
  {
    Utf8LenAscii(s);
  }
}
