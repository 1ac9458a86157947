/** ListObjects: the hosted URL of every object under a prefix, page by
    page, skipping objects without a key and failing on the first page that
    cannot be fetched. */
module Listing {
  import opened Outcomes
  import opened ObjectKey

  /** One ListObjectsV2 page as the paginator delivers it: an error, or the
      objects' keys with a nil key as None. */
  type Page = Result<seq<Option<string>>>

  /** The keys that are present, in order. PresentKeysExactly says which
      keys these are, PresentKeysAppend that the filter works piecewise, and
      NothingSkippedWithoutNil that without nil keys every object is kept in
      place. */
  function PresentKeys(objs: seq<Option<string>>): (keys: seq<string>)
    ensures |keys| <= |objs|
  {
    if objs == [] then []
    else
      var last := objs[|objs| - 1];
      PresentKeys(objs[..|objs| - 1]) + (if last.Some? then [last.value] else [])
  }

  /** The present keys of the fetched pages, page after page. */
  function ListedKeys(pages: seq<Page>): seq<string> {
    if pages == [] then []
    else
      var last := pages[|pages| - 1];
      ListedKeys(pages[..|pages| - 1]) + (if last.Ok? then PresentKeys(last.value) else [])
  }

  predicate AllPagesOk(pages: seq<Page>) {
    forall i :: 0 <= i < |pages| ==> pages[i].Ok?
  }

  /** The URLs of `keys`, one per key, in order. */
  predicate UrlsOf(urls: seq<string>, bucket: string, region: string, keys: seq<string>) {
    |urls| == |keys| && forall i :: 0 <= i < |urls| ==> urls[i] == HostedUrl(bucket, region, keys[i])
  }

  /** The inner loop of ListObjects: append the URL of every object of one
      page that has a key. */
  method AppendPageUrls(urls: seq<string>, bucket: string, region: string,
                        keys: seq<string>, objs: seq<Option<string>>)
    returns (out: seq<string>)
    requires UrlsOf(urls, bucket, region, keys)
    ensures UrlsOf(out, bucket, region, keys + PresentKeys(objs))
  {
    out := urls;
    var j := 0;
    while j < |objs|
      invariant 0 <= j <= |objs|
      invariant UrlsOf(out, bucket, region, keys + PresentKeys(objs[..j]))
    {
      assert objs[..j + 1][..j] == objs[..j];
      if objs[j].Some? {
        out := out + [HostedUrl(bucket, region, objs[j].value)];
      }
      j := j + 1;
    }
    assert objs[..j] == objs;
  }

  /** DefaultS3Service.ListObjects over the pages the paginator yields. */
  method ListObjectUrls(clientPresent: bool, bucket: string, region: string, pages: seq<Page>)
    returns (r: Result<seq<string>>)
    ensures !clientPresent ==> r == Err(NilClient)
    ensures clientPresent && !AllPagesOk(pages) ==> r == Err(ListPageFailed)
    ensures clientPresent && AllPagesOk(pages) ==> r.Ok?
    ensures r.Ok? ==> UrlsOf(r.value, bucket, region, ListedKeys(pages))
  {
    if !clientPresent {
      return Err(NilClient);
    }
    var urls: seq<string> := [];
    var p := 0;
    while p < |pages|
      invariant 0 <= p <= |pages|
      invariant AllPagesOk(pages[..p])
      invariant UrlsOf(urls, bucket, region, ListedKeys(pages[..p]))
    {
      match pages[p]
      case Err(_) =>
        return Err(ListPageFailed);
      case Ok(objs) =>
        urls := AppendPageUrls(urls, bucket, region, ListedKeys(pages[..p]), objs);
        assert pages[..p + 1][..p] == pages[..p];
        p := p + 1;
    }
    assert pages[..p] == pages;
    return Ok(urls);
  }

  /** Filtering nil keys distributes over concatenation. */
  lemma {:induction false} PresentKeysAppend(a: seq<Option<string>>, b: seq<Option<string>>)
    ensures PresentKeys(a + b) == PresentKeys(a) + PresentKeys(b)
    decreases |b|
  {
    if b == [] {
      assert a + b == a;
    } else {
      var b' := b[..|b| - 1];
      assert (a + b)[..|a + b| - 1] == a + b';
      PresentKeysAppend(a, b');
    }
  }

  /** All objects of the given pages, page after page. */
  function Objects(pages: seq<Page>): seq<Option<string>> {
    if pages == [] then []
    else
      var last := pages[|pages| - 1];
      Objects(pages[..|pages| - 1]) + (if last.Ok? then last.value else [])
  }

  /** Page boundaries do not matter: the listed keys are the present keys of
      all objects taken together. */
  lemma {:induction false} ListedKeysIgnorePaging(pages: seq<Page>)
    ensures ListedKeys(pages) == PresentKeys(Objects(pages))
    decreases |pages|
  {
    if pages != [] {
      var init := pages[..|pages| - 1];
      var last := pages[|pages| - 1];
      ListedKeysIgnorePaging(init);
      PresentKeysAppend(Objects(init), if last.Ok? then last.value else []);
    }
  }

  /** Without nil keys every object is listed, in order. */
  lemma {:induction false} NothingSkippedWithoutNil(objs: seq<Option<string>>)
    requires forall i :: 0 <= i < |objs| ==> objs[i].Some?
    ensures |PresentKeys(objs)| == |objs|
    ensures forall i :: 0 <= i < |objs| ==> PresentKeys(objs)[i] == objs[i].value
    decreases |objs|
  {
    if objs != [] {
      NothingSkippedWithoutNil(objs[..|objs| - 1]);
    }
  }

  /** Every listed key is the key of some object, and each present key is
      listed. */
  lemma {:induction false} PresentKeysExactly(objs: seq<Option<string>>, k: string)
    ensures k in PresentKeys(objs) <==> Some(k) in objs
    decreases |objs|
  {
    if objs != [] {
      var init := objs[..|objs| - 1];
      PresentKeysExactly(init, k);
      assert objs == init + [objs[|objs| - 1]];
    }
  }
}
