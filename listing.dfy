/** `list_objects`: following `list_objects_v2` continuation tokens until the
    first page that is not truncated, keeping the keys that end in ".json".
    The storage service is the sequence of responses it gives to the
    successive requests. */
module Listing {
  import opened Wrappers
  import opened Format
  import opened Ordering

  /** One `list_objects_v2` response: the keys of `Contents` (an absent
      `Contents` counts as empty), `IsTruncated` (absent counts as false) and
      `NextContinuationToken`. */
  datatype Page = Page(keys: seq<string>, isTruncated: bool, nextToken: Option<string>)

  /** The keyword arguments of one `list_objects_v2` call. */
  datatype ListRequest = ListRequest(bucket: string, prefix: string, maxKeys: int, continuationToken: Option<string>)

  const MaxKeys: int := 1000
  const JsonSuffix: string := ".json"

  /** The keys that end in ".json", in their original order. */
  function JsonKeys(keys: seq<string>): (r: seq<string>)
    ensures |r| <= |keys|
  {
    if keys == [] then []
    else
      var last := keys[|keys| - 1];
      JsonKeys(keys[..|keys| - 1]) + (if EndsWith(last, JsonSuffix) then [last] else [])
  }

  /** The kept keys are exactly the given keys that end in ".json". */
  lemma {:induction false} JsonKeysMembers(keys: seq<string>)
    ensures forall k :: k in JsonKeys(keys) <==> k in keys && EndsWith(k, JsonSuffix)
  {
    if keys != [] {
      var init := keys[..|keys| - 1];
      JsonKeysMembers(init);
      assert keys == init + [keys[|keys| - 1]];
    }
  }

  /** The ".json" keys of each page, page after page. */
  function PagesJsonKeys(pages: seq<Page>): seq<string>
  {
    if pages == [] then [] else PagesJsonKeys(pages[..|pages| - 1]) + JsonKeys(pages[|pages| - 1].keys)
  }

  /** Every key of each page, page after page. */
  function PagesKeys(pages: seq<Page>): seq<string>
  {
    if pages == [] then [] else PagesKeys(pages[..|pages| - 1]) + pages[|pages| - 1].keys
  }

  /** The continuation token of the next request: a missing or empty token
      is not sent. */
  function Carried(token: Option<string>): (r: Option<string>)
    ensures r.Some? <==> token.Some? && token.value != ""
    ensures r.Some? ==> r == token
  {
    if token.Some? && token.value != "" then token else None
  }

  /** Page `n` is the first page that is not truncated. */
  predicate IsLast(pages: seq<Page>, n: int)
  {
    0 <= n < |pages| && !pages[n].isTruncated && forall i :: 0 <= i < n ==> pages[i].isTruncated
  }

  /** The request loop. `pages[i]` is the response to the `i`-th request;
      the requests made are returned in order. The first request carries no
      token, every later one the token of the previous response, and the loop
      stops right after the first response that is not truncated. */
  method ListObjects(bucket: string, prefix: string, pages: seq<Page>)
    returns (keys: seq<string>, requests: seq<ListRequest>)
    requires exists n :: 0 <= n < |pages| && !pages[n].isTruncated
    ensures 1 <= |requests| <= |pages| && IsLast(pages, |requests| - 1)
    ensures requests[0] == ListRequest(bucket, prefix, MaxKeys, None)
    ensures forall i :: 0 < i < |requests| ==>
              requests[i] == ListRequest(bucket, prefix, MaxKeys, Carried(pages[i - 1].nextToken))
    ensures keys == PagesJsonKeys(pages[..|requests|])
  {
    var token: Option<string> := None;
    keys := [];
    requests := [];
    var i := 0;
    while true
      invariant i == |requests| < |pages|
      invariant forall j :: 0 <= j < i ==> pages[j].isTruncated
      invariant token == if i == 0 then None else pages[i - 1].nextToken
      invariant i > 0 ==> requests[0] == ListRequest(bucket, prefix, MaxKeys, None)
      invariant forall j :: 0 < j < i ==>
                  requests[j] == ListRequest(bucket, prefix, MaxKeys, Carried(pages[j - 1].nextToken))
      invariant keys == PagesJsonKeys(pages[..i])
      decreases |pages| - i
    {
      requests := requests + [ListRequest(bucket, prefix, MaxKeys, Carried(token))];
      var resp := pages[i];
      keys := AppendJsonKeys(keys, resp.keys);
      PagesJsonKeysStep(pages, i);
      if resp.isTruncated {
        token := resp.nextToken;
      } else {
        break;
      }
      i := i + 1;
    }
  }

  /** The inner loop: appends the ".json" keys of one page to `keys`. */
  method AppendJsonKeys(keys: seq<string>, page: seq<string>) returns (r: seq<string>)
    ensures r == keys + JsonKeys(page)
  {
    r := keys;
    for c := 0 to |page|
      invariant r == keys + JsonKeys(page[..c])
    {
      JsonKeysStep(page, c);
      if EndsWith(page[c], JsonSuffix) {
        r := r + [page[c]];
      }
    }
    assert page[..|page|] == page;
  }

  lemma JsonKeysStep(keys: seq<string>, c: int)
    requires 0 <= c < |keys|
    ensures JsonKeys(keys[..c + 1]) == JsonKeys(keys[..c]) + (if EndsWith(keys[c], JsonSuffix) then [keys[c]] else [])
  {
    assert keys[..c + 1][..c] == keys[..c];
  }

  lemma PagesJsonKeysStep(pages: seq<Page>, i: int)
    requires 0 <= i < |pages|
    ensures PagesJsonKeys(pages[..i + 1]) == PagesJsonKeys(pages[..i]) + JsonKeys(pages[i].keys)
  {
    assert pages[..i + 1][..i] == pages[..i];
  }

  /** Filtering commutes with concatenation. */
  lemma {:induction false} JsonKeysAppend(a: seq<string>, b: seq<string>)
    ensures JsonKeys(a + b) == JsonKeys(a) + JsonKeys(b)
    decreases |b|
  {
    if b == [] {
      assert a + b == a;
    } else {
      var init, last := b[..|b| - 1], b[|b| - 1];
      var tail := if EndsWith(last, JsonSuffix) then [last] else [];
      JsonKeysAppend(a, init);
      assert (a + b)[..|a + b| - 1] == a + init;
      assert (a + b)[|a + b| - 1] == last;
      assert JsonKeys(a + b) == JsonKeys(a + init) + tail;
      assert JsonKeys(b) == JsonKeys(init) + tail;
    }
  }

  /** The listed keys are the ".json" keys of all fetched pages, in order. */
  lemma {:induction false} PagesJsonKeysFilter(pages: seq<Page>)
    ensures PagesJsonKeys(pages) == JsonKeys(PagesKeys(pages))
  {
    if pages != [] {
      var init := pages[..|pages| - 1];
      PagesJsonKeysFilter(init);
      JsonKeysAppend(PagesKeys(init), pages[|pages| - 1].keys);
    }
  }

  /** A key is listed exactly when some fetched page holds it and it ends in ".json". */
  lemma {:induction false} ListedKeys(pages: seq<Page>, k: string)
    ensures k in PagesJsonKeys(pages) <==>
            EndsWith(k, JsonSuffix) && exists i :: 0 <= i < |pages| && k in pages[i].keys
  {
    if pages != [] {
      var n := |pages|;
      var init, last := pages[..n - 1], pages[n - 1];
      ListedKeys(init, k);
      JsonKeysMembers(last.keys);
      assert k in PagesJsonKeys(pages) <==> k in PagesJsonKeys(init) || k in JsonKeys(last.keys);
      if i :| 0 <= i < n && k in pages[i].keys {
        if i < n - 1 {
          assert init[i] == pages[i];
        }
      }
      if i :| 0 <= i < n - 1 && k in init[i].keys {
        assert pages[i] == init[i];
      }
    }
  }

  /** Filtering keeps distinct keys distinct. */
  lemma {:induction false} JsonKeysDistinct(keys: seq<string>)
    requires Distinct(keys)
    ensures Distinct(JsonKeys(keys))
  {
    if keys != [] {
      var init := keys[..|keys| - 1];
      JsonKeysDistinct(init);
      JsonKeysMembers(init);
      assert keys[|keys| - 1] !in init;
    }
  }

  /** When every key of `keys` ends in ".json" nothing is filtered out. */
  lemma {:induction false} JsonKeysAll(keys: seq<string>)
    requires forall k :: k in keys ==> EndsWith(k, JsonSuffix)
    ensures JsonKeys(keys) == keys
  {
    if keys != [] {
      JsonKeysAll(keys[..|keys| - 1]);
      assert keys[..|keys| - 1] + [keys[|keys| - 1]] == keys;
    }
  }

  /** Paging neither loses nor repeats a key: if the fetched pages hold
      distinct ".json" keys, the listing is exactly those keys, each once. */
  lemma ListingComplete(pages: seq<Page>)
    requires Distinct(PagesKeys(pages))
    requires forall k :: k in PagesKeys(pages) ==> EndsWith(k, JsonSuffix)
    ensures PagesJsonKeys(pages) == PagesKeys(pages)
    ensures Distinct(PagesJsonKeys(pages))
  {
    PagesJsonKeysFilter(pages);
    JsonKeysAll(PagesKeys(pages));
  }

  /** The job does not deduplicate: the keys it returns are distinct
      whenever the pages list each key once, whatever else they hold. */
  lemma ListedKeysDistinct(pages: seq<Page>)
    requires Distinct(PagesKeys(pages))
    ensures Distinct(PagesJsonKeys(pages))
  {
    PagesJsonKeysFilter(pages);
    JsonKeysDistinct(PagesKeys(pages));
  }
}
