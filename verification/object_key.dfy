/** Object keys and the URLs that name them: the hosted-object URL the
    service hands out, the key recovered from such a URL, and the display
    name taken from a key's last segment. */
module ObjectKey {
  import opened Outcomes
  import opened Text

  /** The two fields of Go's url.URL that the package reads. `path` is the
      decoded path, leading '/' included. */
  datatype ParsedUrl = ParsedUrl(host: string, path: string)

  const Scheme: string := "https://"

  /** Virtual-hosted-style host of a bucket: `<bucket>.s3.<region>.amazonaws.com`. */
  function HostOf(bucket: string, region: string): string {
    bucket + ".s3." + region + ".amazonaws.com"
  }

  /** A host-safe bucket and region make a host-safe host name. */
  lemma HostOfSafe(bucket: string, region: string)
    requires HostSafe(bucket) && HostSafe(region)
    ensures HostSafe(HostOf(bucket, region))
  {
    var host := HostOf(bucket, region);
    forall i | 0 <= i < |host| ensures IsHostChar(host[i]) {
      if i < |bucket| {
        assert host[i] == bucket[i];
      } else if i < |bucket| + 4 {
        assert host[i] == ".s3."[i - |bucket|];
      } else if i < |bucket| + 4 + |region| {
        assert host[i] == region[i - |bucket| - 4];
      } else {
        assert host[i] == ".amazonaws.com"[i - |bucket| - 4 - |region|];
      }
    }
  }

  /** The location string built by Upload and ListObjects: the scheme, the
      host, then the key after one '/'. */
  function HostedUrl(bucket: string, region: string, key: string): (u: string)
    ensures |u| == |Scheme| + |HostOf(bucket, region)| + 1 + |key|
    ensures u[..|Scheme|] == Scheme
    ensures EndsWith(u, key) && u[|u| - |key| - 1] == '/'
    ensures HostSafe(bucket) && HostSafe(region) ==>
              '/' !in u[|Scheme|..|u| - |key| - 1]
  {
    var host := HostOf(bucket, region);
    var u := Scheme + host + "/" + key;
    assert u[|Scheme|..|u| - |key| - 1] == host;
    assert HostSafe(bucket) && HostSafe(region) ==> '/' !in host by {
      if HostSafe(bucket) && HostSafe(region) {
        HostOfSafe(bucket, region);
      }
    }
    assert u[|u| - |key|..] == key;
    u
  }

  /** Characters of bucket names and region codes. */
  predicate IsHostChar(c: char) { IsLowerAlnum(c) || c == '.' || c == '-' }

  predicate HostSafe(s: string) {
    forall i :: 0 <= i < |s| ==> IsHostChar(s[i])
  }

  /** Characters that url.Parse copies into the path unchanged: the space,
      visible ASCII and every non-ASCII character, except the query,
      fragment and escape markers. Control characters and DEL, which
      url.Parse rejects, are excluded. */
  predicate IsPathChar(c: char) {
    (' ' <= c <= '~' || c as int >= 0x80) && c != '?' && c != '#' && c != '%'
  }

  predicate PathSafe(s: string) {
    forall i :: 0 <= i < |s| ==> IsPathChar(s[i])
  }

  /** Length of the authority part: everything before the first '/'. */
  function AuthorityLength(s: string): (n: nat)
    ensures n <= |s|
    ensures '/' !in s[..n]
    ensures n < |s| ==> s[n] == '/'
  {
    if s == [] || s[0] == '/' then 0
    else
      var n := AuthorityLength(s[1..]);
      assert s[..n + 1] == [s[0]] + s[1..][..n];
      n + 1
  }

  /** url.Parse restricted to the shape `https://<host><path>`, where the
      host has only host characters and the path is empty or starts with
      '/' and has only path characters. None means "outside this shape",
      not that Go would reject the string. */
  function ParseHostedUrl(u: string): (r: Option<ParsedUrl>)
    ensures r.Some? ==> u == Scheme + r.value.host + r.value.path
    ensures r.Some? ==> HostSafe(r.value.host) && PathSafe(r.value.path)
    ensures r.Some? ==> r.value.path == [] || r.value.path[0] == '/'
  {
    if |u| < |Scheme| || u[..|Scheme|] != Scheme then None
    else
      var rest := u[|Scheme|..];
      var n := AuthorityLength(rest);
      var host := rest[..n];
      var path := rest[n..];
      if HostSafe(host) && PathSafe(path) then
        assert u == Scheme + host + path by {
          assert u == u[..|Scheme|] + rest;
          assert rest == host + path;
        }
        Some(ParsedUrl(host, path))
      else None
  }

  /** The authority of `host + path` ends where the path begins. */
  lemma {:induction false} AuthorityOfHostAndPath(host: string, path: string)
    requires HostSafe(host)
    requires path == [] || path[0] == '/'
    ensures AuthorityLength(host + path) == |host|
    decreases |host|
  {
    if host == [] {
      assert host + path == path;
    } else {
      assert IsHostChar(host[0]);
      assert (host + path)[1..] == host[1..] + path;
      AuthorityOfHostAndPath(host[1..], path);
    }
  }

  /** Parsing undoes printing: every string of the modelled shape parses
      back into its own host and path. */
  lemma ParsePrinted(host: string, path: string)
    requires HostSafe(host) && PathSafe(path)
    requires path == [] || path[0] == '/'
    ensures ParseHostedUrl(Scheme + host + path) == Some(ParsedUrl(host, path))
  {
    var u := Scheme + host + path;
    assert u[..|Scheme|] == Scheme;
    assert u[|Scheme|..] == host + path;
    AuthorityOfHostAndPath(host, path);
  }

  /** extractObjectKeyFromURL after url.Parse: the path without its first
      character. A failed parse is reported; an empty path makes the slice
      `Path[1:]` panic. */
  function ExtractObjectKey(parsed: Result<ParsedUrl>): (r: Result<string>)
    ensures parsed.Err? ==> r == Err(UrlParseFailed)
    ensures parsed.Ok? && parsed.value.path == [] ==> r == Err(SliceOutOfRange)
    ensures r.Ok? <==> parsed.Ok? && parsed.value.path != []
    ensures r.Err? && IsPanic(r.failure) <==> parsed.Ok? && parsed.value.path == []
    ensures r.Ok? ==> parsed.value.path == [parsed.value.path[0]] + r.value
  {
    match parsed
    case Err(_) => Err(UrlParseFailed)
    case Ok(url) =>
      if url.path == [] then Err(SliceOutOfRange) else Ok(url.path[1..])
  }

  /** Every hosted URL the service prints leads back to its key, provided the
      bucket and region are host-safe and the key is path-safe. */
  lemma KeyRoundTrip(bucket: string, region: string, key: string)
    requires HostSafe(bucket) && HostSafe(region) && PathSafe(key)
    ensures ParseHostedUrl(HostedUrl(bucket, region, key))
         == Some(ParsedUrl(HostOf(bucket, region), "/" + key))
    ensures ExtractObjectKey(Ok(ParsedUrl(HostOf(bucket, region), "/" + key))) == Ok(key)
  {
    var host := HostOf(bucket, region);
    HostOfSafe(bucket, region);
    var path := "/" + key;
    assert PathSafe(path) by {
      forall i | 0 <= i < |path| ensures IsPathChar(path[i]) {
        if i > 0 {
          assert path[i] == key[i - 1];
        }
      }
    }
    assert HostedUrl(bucket, region, key) == Scheme + host + path;
    ParsePrinted(host, path);
    assert path[1..] == key;
  }

  /** A URL with nothing after the host parses to an empty path, and key
      extraction then panics instead of returning an error. */
  lemma HostOnlyUrlPanics(bucket: string, region: string)
    requires HostSafe(bucket) && HostSafe(region)
    ensures ParseHostedUrl(Scheme + HostOf(bucket, region))
         == Some(ParsedUrl(HostOf(bucket, region), []))
    ensures ExtractObjectKey(Ok(ParsedUrl(HostOf(bucket, region), []))) == Err(SliceOutOfRange)
  {
    var host := HostOf(bucket, region);
    HostOfSafe(bucket, region);
    assert Scheme + host == Scheme + host + [];
    ParsePrinted(host, []);
  }

  // ---------------------------------------------------------------------
  // Display name: the key's last '/'-segment
  // ---------------------------------------------------------------------

  /** strings.Split with a one-character separator: the pieces between
      separators, so always at least one piece. */
  function Split(s: string, sep: char): (parts: seq<string>)
    ensures |parts| >= 1
  {
    if s == [] then [[]]
    else if s[0] == sep then [[]] + Split(s[1..], sep)
    else
      var rest := Split(s[1..], sep);
      [[s[0]] + rest[0]] + rest[1..]
  }

  /** No piece holds the separator. */
  lemma {:induction false} SplitPiecesLackSeparator(s: string, sep: char)
    ensures forall i :: 0 <= i < |Split(s, sep)| ==> sep !in Split(s, sep)[i]
    decreases |s|
  {
    if s != [] {
      SplitPiecesLackSeparator(s[1..], sep);
      var rest := Split(s[1..], sep);
      if s[0] != sep {
        assert forall c :: c in [s[0]] + rest[0] ==> c == s[0] || c in rest[0];
      }
    }
  }

  /** strings.Join with a one-character separator. */
  function Join(parts: seq<string>, sep: char): string {
    if parts == [] then []
    else if |parts| == 1 then parts[0]
    else parts[0] + [sep] + Join(parts[1..], sep)
  }

  /** Joining the pieces with the separator gives the string back. */
  lemma {:induction false} JoinSplit(s: string, sep: char)
    ensures Join(Split(s, sep), sep) == s
    decreases |s|
  {
    if s != [] {
      var rest := Split(s[1..], sep);
      JoinSplit(s[1..], sep);
      if s[0] == sep {
        assert ([[]] + rest)[1..] == rest;
      } else if |rest| == 1 {
        assert s == [s[0]] + rest[0];
      } else {
        var parts := [[s[0]] + rest[0]] + rest[1..];
        assert parts[1..] == rest[1..];
        assert s == [s[0]] + (rest[0] + [sep] + Join(rest[1..], sep));
      }
    }
  }

  /** A separator-free piece followed by the separator is split off as the
      first piece. */
  lemma {:induction false} SplitAfterPiece(p: string, t: string, sep: char)
    requires sep !in p
    ensures Split(p + [sep] + t, sep) == [p] + Split(t, sep)
    decreases |p|
  {
    var s := p + [sep] + t;
    if p == [] {
      assert s == [sep] + t;
    } else {
      SplitAfterPiece(p[1..], t, sep);
      assert s[0] == p[0];
      assert s[1..] == p[1..] + [sep] + t;
      assert p == [p[0]] + p[1..];
    }
  }

  /** Splitting a join of separator-free pieces gives the pieces back. */
  lemma {:induction false} SplitJoin(parts: seq<string>, sep: char)
    requires |parts| >= 1
    requires forall i :: 0 <= i < |parts| ==> sep !in parts[i]
    ensures Split(Join(parts, sep), sep) == parts
    decreases |parts|
  {
    if |parts| == 1 {
      SplitWithoutSeparator(parts[0], sep);
    } else {
      SplitJoin(parts[1..], sep);
      SplitAfterPiece(parts[0], Join(parts[1..], sep), sep);
      assert parts == [parts[0]] + parts[1..];
    }
  }

  /** The name GetMetaData reports for a key: what follows the last '/'. */
  function DisplayName(key: string): (name: string)
    ensures EndsWith(key, name)
    ensures '/' !in name
    ensures |name| == |key| || key[|key| - |name| - 1] == '/'
  {
    match LastIndexOf(key, '/')
    case None => key
    case Some(i) => key[i + 1..]
  }

  /** The three facts DisplayName promises pin its result down. */
  lemma DisplayNameUnique(key: string, name: string)
    requires EndsWith(key, name)
    requires '/' !in name
    requires |name| == |key| || key[|key| - |name| - 1] == '/'
    ensures name == DisplayName(key)
  {
    var start := |key| - |name|;
    assert forall j :: start <= j < |key| ==> key[j] == name[j - start];
    match LastIndexOf(key, '/')
    case None =>
      assert |name| == |key|;
    case Some(i) =>
      assert start - 1 == i;
  }

  /** Putting one more character in front of a key that already holds a
      '/' after it, or putting a '/' in front, keeps the display name. */
  lemma DisplayNameExtendLeft(key: string)
    requires key != []
    requires key[0] == '/' || '/' in key[1..]
    ensures DisplayName(key) == DisplayName(key[1..])
  {
    var tail := key[1..];
    var last := DisplayName(tail);
    assert key[|key| - |last|..] == tail[|tail| - |last|..];
    if |last| == |tail| {
      assert last == tail;
      assert key[|key| - |last| - 1] == key[0];
    } else {
      assert key[|key| - |last| - 1] == tail[|tail| - |last| - 1];
    }
    DisplayNameUnique(key, last);
  }

  /** A string without the separator is a single piece. */
  lemma {:induction false} SplitWithoutSeparator(s: string, sep: char)
    requires sep !in s
    ensures Split(s, sep) == [s]
    decreases |s|
  {
    if s != [] {
      SplitWithoutSeparator(s[1..], sep);
      assert s == [s[0]] + s[1..];
    }
  }

  /** One more character in front leaves the last piece alone once a
      separator follows it or is that character. */
  lemma SplitLastPieceStays(s: string, sep: char)
    requires s != []
    requires s[0] == sep || |Split(s[1..], sep)| >= 2
    ensures var parts := Split(s, sep); var rest := Split(s[1..], sep);
            |parts| >= 2 && parts[|parts| - 1] == rest[|rest| - 1]
  {
    var rest := Split(s[1..], sep);
    if s[0] == sep {
      assert Split(s, sep) == [[]] + rest;
    } else {
      assert Split(s, sep) == [[s[0]] + rest[0]] + rest[1..];
    }
  }

  /** There are several pieces exactly when the separator occurs. */
  lemma SeveralPiecesIffSeparator(s: string, sep: char)
    ensures sep in s <==> |Split(s, sep)| >= 2
  {
    var parts := Split(s, sep);
    JoinSplit(s, sep);
    SplitPiecesLackSeparator(s, sep);
    assert |parts| == 1 ==> Join(parts, sep) == parts[0];
    if sep !in s {
      SplitWithoutSeparator(s, sep);
    }
  }

  /** A character of a string is its first one or one of the rest. */
  lemma SeparatorAtHeadOrTail(s: string, sep: char)
    requires sep in s
    ensures s[0] == sep || sep in s[1..]
  {
    assert s == [s[0]] + s[1..];
  }

  /** A key with a '/' has the same display name as its tail. */
  lemma DisplayNameOfLongerKey(key: string)
    requires '/' in key
    ensures DisplayName(key) == DisplayName(key[1..])
  {
    SeparatorAtHeadOrTail(key, '/');
    DisplayNameExtendLeft(key);
  }

  /** A string holding the separator has the same last piece as its tail. */
  lemma LastPieceOfLongerString(s: string, sep: char)
    requires sep in s
    ensures var parts := Split(s, sep); var rest := Split(s[1..], sep);
            parts[|parts| - 1] == rest[|rest| - 1]
  {
    SeparatorAtHeadOrTail(s, sep);
    SeveralPiecesIffSeparator(s[1..], sep);
    SplitLastPieceStays(s, sep);
  }

  /** A key without '/' is its own display name and its only piece. */
  lemma LastPieceOfPlainKey(key: string)
    requires '/' !in key
    ensures DisplayName(key) == key
    ensures Split(key, '/') == [key]
  {
    SplitWithoutSeparator(key, '/');
    DisplayNameUnique(key, key);
  }

  /** DisplayName is the last element of strings.Split(key, "/"), which is
      how GetMetaData computes the name. */
  lemma {:induction false} DisplayNameIsLastPiece(key: string)
    ensures var parts := Split(key, '/'); DisplayName(key) == parts[|parts| - 1]
    decreases |key|
  {
    if key == [] {
      assert Split(key, '/') == [[]];
    } else if '/' in key {
      DisplayNameIsLastPiece(key[1..]);
      DisplayNameOfLongerKey(key);
      LastPieceOfLongerString(key, '/');
    } else {
      LastPieceOfPlainKey(key);
    }
  }

  /** The display name of `prefix/name` gives back `name` exactly when
      `name` has no '/' of its own. */
  lemma NameAfterLastSlash(prefix: string, name: string)
    ensures DisplayName(prefix + "/" + name) == name <==> '/' !in name
  {
    var key := prefix + "/" + name;
    if '/' !in name {
      assert key[|key| - |name|..] == name;
      assert key[|key| - |name| - 1] == '/';
      DisplayNameUnique(key, name);
    }
  }

  /** GetMetaData, up to the fields it copies: the key comes from the URL,
      the HeadObject outcome is a parameter, and the reported name is the
      key's display name. */
  function MetaDataName(parsed: Result<ParsedUrl>, headSucceeded: bool): (r: Result<string>)
    ensures ExtractObjectKey(parsed).Err? ==> r == Err(ExtractObjectKey(parsed).failure)
    ensures ExtractObjectKey(parsed).Ok? && !headSucceeded ==> r == Err(HeadObjectFailed)
    ensures r.Ok? <==> ExtractObjectKey(parsed).Ok? && headSucceeded
    ensures r.Ok? ==>
              var key := ExtractObjectKey(parsed).value;
              '/' !in r.value && EndsWith(key, r.value)
              && (|r.value| == |key| || key[|key| - |r.value| - 1] == '/')
  {
    match ExtractObjectKey(parsed)
    case Err(f) => Err(f)
    case Ok(key) => if headSucceeded then Ok(DisplayName(key)) else Err(HeadObjectFailed)
  }

  /** For a hosted URL the reported name is the key's last segment. */
  lemma MetaDataNameOfHostedUrl(bucket: string, region: string, prefix: string, name: string)
    requires HostSafe(bucket) && HostSafe(region) && PathSafe(prefix + "/" + name)
    requires '/' !in name
    ensures ParseHostedUrl(HostedUrl(bucket, region, prefix + "/" + name)).Some?
    ensures MetaDataName(Ok(ParseHostedUrl(HostedUrl(bucket, region, prefix + "/" + name)).value), true)
         == Ok(name)
  {
    KeyRoundTrip(bucket, region, prefix + "/" + name);
    NameAfterLastSlash(prefix, name);
  }
}
