/** `NewsService` of app.py: the case-folding cache key and the
    fetch-through-cache policy around the RSS download. The download itself
    (HTTP with retries, XML parsing, date parsing) is an input: either it
    failed, or it produced the feed's items in document order. */
module News {
  import opened Results
  import opened Strings
  import Cache

  /** An article kept from the feed; `at` is its publication instant in UTC
      seconds since the Unix epoch. */
  datatype Article = Article(title: string, url: string, at: int)

  /** One `<item>` of the feed with its title and link text as found and its
      publication instant already parsed (or defaulted to the current time). */
  datatype FeedItem = FeedItem(title: string, link: string, at: int)

  datatype Download =
    | Unreachable   // all three GET attempts raised
    | Unparsable    // the body was not well-formed XML
    | Feed(items: seq<FeedItem>)

  const KeySeparator := "::"

  /** `_key(tema, max_items)`: the stripped, lower-cased topic and the item
      limit, separated by "::". */
  function NewsKey(topic: string, maxItems: int): (k: string)
    ensures var t, d := Strip(topic), IntToString(maxItems);
      && |k| == |t| + |KeySeparator| + |d|
      && k[..|t|] == Lower(t) && NoUpper(k[..|t|])
      && k[|t|..|t| + |KeySeparator|] == KeySeparator
      && k[|k| - |d|..] == d
  {
    var t := Strip(topic);
    LowerSpec(t);
    var k := Lower(t) + KeySeparator + IntToString(maxItems);
    assert k[..|t|] == Lower(t);
    k
  }

  lemma SuffixAfterLastSeparator(a: string, b: string, d1: string, d2: string)
    requires a + KeySeparator + d1 == b + KeySeparator + d2
    requires ':' !in d1 && ':' !in d2
    ensures a == b && d1 == d2
  {
    var k := a + KeySeparator + d1;
    ColonBeforeSuffix(a, d1);
    ColonBeforeSuffix(b, d2);
    assert |d1| == |d2|;
    assert d1 == k[|k| - |d1|..] == d2;
    assert a == k[..|a|] == b;
  }

  lemma ColonBeforeSuffix(a: string, d: string)
    requires ':' !in d
    ensures var k := a + KeySeparator + d;
      && k[|k| - |d| - 1] == ':'
      && forall j :: |k| - |d| <= j < |k| ==> k[j] != ':'
  {
    var k := a + KeySeparator + d;
    forall j | |k| - |d| <= j < |k| ensures k[j] != ':' {
      assert k[j] == d[j - (|k| - |d|)];
    }
  }

  lemma KeyDigitsHaveNoColon(n: int)
    ensures ':' !in IntToString(n)
  {
    var d := IntToString(n);
    assert forall k :: 0 <= k < |d| ==> d[k] != ':';
  }

  /** Two fetches share a cache entry exactly when their topics agree after
      stripping and lower-casing and their item limits are equal: the key
      ignores case and surrounding whitespace and nothing else. */
  lemma NewsKeyCollision(t1: string, n1: int, t2: string, n2: int)
    ensures NewsKey(t1, n1) == NewsKey(t2, n2) <==> Lower(Strip(t1)) == Lower(Strip(t2)) && n1 == n2
  {
    var a, b := Lower(Strip(t1)), Lower(Strip(t2));
    var d1, d2 := IntToString(n1), IntToString(n2);
    assert NewsKey(t1, n1) == a + KeySeparator + d1;
    assert NewsKey(t2, n2) == b + KeySeparator + d2;
    if a + KeySeparator + d1 == b + KeySeparator + d2 {
      KeyDigitsHaveNoColon(n1);
      KeyDigitsHaveNoColon(n2);
      SuffixAfterLastSeparator(a, b, d1, d2);
      IntToStringInjective(n1, n2);
    }
  }

  /** The item kept for a feed entry whose stripped title and link are both
      non-empty. */
  function ToArticle(item: FeedItem): Option<Article> {
    var title, link := Strip(item.title), Strip(item.link);
    if title != "" && link != "" then Some(Article(title, link, item.at)) else None
  }

  /** The values `f` produces for the elements of `s`, in order, skipping
      the elements it maps to `None`. */
  function FilterMap<A, B>(s: seq<A>, f: A -> Option<B>): seq<B> {
    if s == [] then []
    else
      var last := f(s[|s| - 1]);
      FilterMap(s[..|s| - 1], f) + (if last.Some? then [last.value] else [])
  }

  lemma {:induction false} FilterMapAppend<A, B>(a: seq<A>, b: seq<A>, f: A -> Option<B>)
    ensures FilterMap(a + b, f) == FilterMap(a, f) + FilterMap(b, f)
  {
    if b == [] {
      assert a + b == a;
    } else {
      var ab, init := a + b, b[..|b| - 1];
      assert ab[..|ab| - 1] == a + init;
      assert ab[|ab| - 1] == b[|b| - 1];
      FilterMapAppend(a, init, f);
    }
  }

  /** All kept articles of a run of feed items, in feed order. */
  function Kept(items: seq<FeedItem>): seq<Article> {
    FilterMap(items, ToArticle)
  }

  function Take<T>(s: seq<T>, n: int): (r: seq<T>)
    ensures |r| == if n <= 0 then 0 else if n < |s| then n else |s|
    ensures r == s[..|r|]
  {
    if n <= 0 then [] else if n < |s| then s[..n] else s
  }

  lemma KeptStep(items: seq<FeedItem>, i: nat)
    requires i < |items|
    ensures Kept(items[..i + 1]) == Kept(items[..i]) + (if ToArticle(items[i]).Some? then [ToArticle(items[i]).value] else [])
  {
    assert items[..i + 1][..i] == items[..i];
  }

  lemma FilterMapPrefixIsTake<A, B>(s: seq<A>, i: nat, n: int, f: A -> Option<B>)
    requires i <= |s| && n >= 1 && |FilterMap(s[..i], f)| == n
    ensures Take(FilterMap(s, f), n) == FilterMap(s[..i], f)
  {
    FilterMapAppend(s[..i], s[i..], f);
    assert s[..i] + s[i..] == s;
  }

  /** The loop over `<item>` elements: each one with a title and a link is
      kept, and the loop stops as soon as `max_items` articles are kept. With
      a positive limit that is the first `max_items` kept articles; with a
      limit of zero or less the loop stops after the first element whether or
      not it was kept. */
  method Collect(items: seq<FeedItem>, maxItems: int) returns (kept: seq<Article>)
    ensures maxItems >= 1 ==> kept == Take(Kept(items), maxItems)
    ensures maxItems <= 0 ==> kept == Kept(items[..if items == [] then 0 else 1])
  {
    kept := [];
    var i := 0;
    while i < |items|
      invariant i <= |items|
      invariant kept == Kept(items[..i])
      invariant maxItems >= 1 ==> |kept| < maxItems
      invariant maxItems <= 0 ==> i == 0
    {
      KeptStep(items, i);
      var c := ToArticle(items[i]);
      if c.Some? {
        kept := kept + [c.value];
      }
      i := i + 1;
      if |kept| >= maxItems {
        if maxItems >= 1 {
          FilterMapPrefixIsTake(items, i, maxItems, ToArticle);
        }
        return;
      }
    }
    assert items[..i] == items;
  }

  datatype Fetched = Fetched(articles: seq<Article>, cache: Cache.MemoryCache<seq<Article>>)

  /** `fetch(tema, max_items)`: a missing or zero limit falls back to the
      configured one. A live cache entry is returned as is and the download is
      not consulted. Otherwise the download's articles are cached and
      returned; a failed download caches and returns the empty list, so
      repeated failures are not retried within the time-to-live. `now` is the
      time of the lookup and `doneAt` the time the download finished. */
  method Fetch(
    cache: Cache.MemoryCache<seq<Article>>, topic: string, maxItems: Option<int>,
    defaultMax: int, now: real, doneAt: real, download: Download) returns (out: Fetched)
    ensures var limit := if maxItems.None? || maxItems.value == 0 then defaultMax else maxItems.value;
      var key := NewsKey(topic, limit);
      && (Cache.Get(cache, key, now).Some? ==>
            out.articles == Cache.Get(cache, key, now).value && out.cache == cache)
      && (Cache.Get(cache, key, now).None? ==>
            && out.cache == Cache.Set(cache, key, out.articles, doneAt)
            && (download.Feed? && limit >= 1 ==> out.articles == Take(Kept(download.items), limit))
            && (download.Feed? && limit <= 0 ==>
                  out.articles == Kept(download.items[..if download.items == [] then 0 else 1]))
            && (!download.Feed? ==> out.articles == []))
  {
    var limit := if maxItems.None? || maxItems.value == 0 then defaultMax else maxItems.value;
    var key := NewsKey(topic, limit);
    var hit := Cache.Get(cache, key, now);
    if hit.Some? {
      return Fetched(hit.value, cache);
    }
    var articles: seq<Article> := [];
    if download.Feed? {
      articles := Collect(download.items, limit);
    }
    out := Fetched(articles, Cache.Set(cache, key, articles, doneAt));
  }

  /** A failed download is remembered: a second fetch of the same topic
      within the time-to-live returns the cached empty list. */
  lemma FailureIsCached(cache: Cache.MemoryCache<seq<Article>>, topic: string, limit: int, t0: real, now: real)
    requires now - t0 < cache.ttl as real
    ensures Cache.Get(Cache.Set(cache, NewsKey(topic, limit), [], t0), NewsKey(topic, limit), now) == Some([])
  {
  }
}
