/** The pure shaping done by the `/prever` route of app.py around the news
    fetch and the analytics: the topic check, the optional year filter, the
    twelve newest articles with their source host, and the request's meta
    data. The fetched articles and today's UTC day number are inputs. */
module Forecast {
  import opened Results
  import opened Strings
  import News
  import Analytics

  const MissingTopic := "Informe 'tema' no body JSON."

  /** `(dados.get("tema") or "").strip()`, refused when it comes out empty. */
  function TopicOf(raw: Option<string>): (r: Result<string>)
    ensures r.Ok? <==> raw.Some? && !IsBlank(raw.value)
    ensures r.Ok? ==> r.value == Strip(raw.value) && r.value != []
    ensures r.Err? ==> r.error == MissingTopic
  {
    match raw
    case None => Err(MissingTopic)
    case Some(v) =>
      StripEnds(v);
      if Strip(v) == [] then Err(MissingTopic) else Ok(Strip(v))
  }

  // ---------------------------------------------------------------------------
  // Calendar years
  // ---------------------------------------------------------------------------

  /** Leap years of the proleptic Gregorian calendar. */
  predicate IsLeap(y: int) {
    y % 4 == 0 && (y % 100 != 0 || y % 400 == 0)
  }

  /** Number of multiples of 4, less those of 100, plus those of 400, in
      `[1, y]` (and the matching negative count below 1). */
  function LeapCount(y: int): int {
    y / 4 - y / 100 + y / 400
  }

  lemma LeapCountStep(y: int)
    ensures LeapCount(y) - LeapCount(y - 1) == if IsLeap(y) then 1 else 0
  {
    var q4, q100, q400 := y / 4 - (y - 1) / 4, y / 100 - (y - 1) / 100, y / 400 - (y - 1) / 400;
    assert q4 == (if y % 4 == 0 then 1 else 0);
    assert q100 == (if y % 100 == 0 then 1 else 0);
    assert q400 == (if y % 400 == 0 then 1 else 0);
    assert y % 400 == 0 ==> y % 100 == 0;
    assert y % 100 == 0 ==> y % 4 == 0;
  }

  /** Day number of January 1st of year `y`, counted from 1970-01-01. */
  function YearStart(y: int): int {
    365 * (y - 1970) + LeapCount(y - 1) - LeapCount(1969)
  }

  /** Each year is 365 days long, 366 in a leap year. */
  lemma YearLength(y: int)
    ensures YearStart(y + 1) - YearStart(y) == if IsLeap(y) then 366 else 365
  {
    LeapCountStep(y);
  }

  function YearUp(day: int, y: int): (r: int)
    requires YearStart(y) <= day
    ensures YearStart(r) <= day < YearStart(r + 1)
    decreases day - YearStart(y)
  {
    YearLength(y);
    if day < YearStart(y + 1) then y else YearUp(day, y + 1)
  }

  function YearDown(day: int, y: int): (r: int)
    requires day < YearStart(y + 1)
    ensures YearStart(r) <= day < YearStart(r + 1)
    decreases YearStart(y + 1) - day
  {
    YearLength(y);
    if YearStart(y) <= day then y else YearDown(day, y - 1)
  }

  /** The calendar year of a day number: the one year whose span contains
      it. */
  function YearOfDay(day: int): (y: int)
    ensures YearStart(y) <= day < YearStart(y + 1)
  {
    if day >= 0 then YearUp(day, 1970) else YearDown(day, 1969)
  }

  /** Day spans of consecutive years do not overlap, so the year of a day is
      unique. */
  lemma YearIsUnique(day: int, y: int)
    requires YearStart(y) <= day < YearStart(y + 1)
    ensures YearOfDay(day) == y
  {
    var z := YearOfDay(day);
    if z < y {
      YearStartMonotone(z + 1, y);
    } else if z > y {
      YearStartMonotone(y + 1, z);
    }
  }

  lemma {:induction false} YearStartMonotone(a: int, b: int)
    requires a <= b
    ensures YearStart(a) <= YearStart(b)
    decreases b - a
  {
    if a < b {
      YearLength(a);
      YearStartMonotone(a + 1, b);
    }
  }

  /** Later days never fall in earlier years. */
  lemma YearOfDayMonotone(d1: int, d2: int)
    requires d1 <= d2
    ensures YearOfDay(d1) <= YearOfDay(d2)
  {
    var y1, y2 := YearOfDay(d1), YearOfDay(d2);
    if y2 < y1 {
      YearStartMonotone(y2 + 1, y1);
    }
  }

  lemma KnownYearStarts()
    ensures YearStart(1970) == 0
    ensures YearStart(2000) == 10957
    ensures YearStart(2024) == 19723
  {
  }

  /** `dt.year` of an article instant in UTC. */
  function YearOf(a: News.Article): int {
    YearOfDay(Analytics.DayOf(a.at))
  }

  // ---------------------------------------------------------------------------
  // Year filter
  // ---------------------------------------------------------------------------

  /** The filter applies only when both bounds are set (non-zero) and in
      order. */
  predicate YearFilterOn(from: int, to: int) {
    from != 0 && to != 0 && from <= to
  }

  function InYears(arts: seq<News.Article>, from: int, to: int): (r: seq<News.Article>)
    ensures |r| <= |arts|
    ensures forall a :: a in r <==> a in arts && from <= YearOf(a) <= to
  {
    if arts == [] then []
    else
      var last := arts[|arts| - 1];
      InYears(arts[..|arts| - 1], from, to) + (if from <= YearOf(last) <= to then [last] else [])
  }

  /** `[a for a in artigos if ano_ini <= a["dt"].year <= ano_fim]`, only when
      the filter is on. */
  function FilterByYear(arts: seq<News.Article>, from: int, to: int): (r: seq<News.Article>)
    ensures !YearFilterOn(from, to) ==> r == arts
    ensures YearFilterOn(from, to) ==> forall a :: a in r <==> a in arts && from <= YearOf(a) <= to
  {
    if YearFilterOn(from, to) then InYears(arts, from, to) else arts
  }

  /** Filtering keeps articles in feed order: filtering a feed extended by one
      article extends the filtered list by that article exactly when it is
      in range. */
  lemma InYearsAppend(arts: seq<News.Article>, a: News.Article, from: int, to: int)
    ensures InYears(arts + [a], from, to) == InYears(arts, from, to) + (if from <= YearOf(a) <= to then [a] else [])
  {
    assert (arts + [a])[..|arts|] == arts;
  }

  // ---------------------------------------------------------------------------
  // Newest twelve
  // ---------------------------------------------------------------------------

  const Shown := 12

  predicate NewestFirst(s: seq<News.Article>) {
    forall i, j :: 0 <= i < j < |s| ==> s[i].at >= s[j].at
  }

  /** Places `x` after every article at least as recent, so that earlier
      articles stay ahead of later ones with the same instant. */
  function Insert(s: seq<News.Article>, x: News.Article): (r: seq<News.Article>)
    ensures |r| == |s| + 1
    ensures multiset(r) == multiset(s) + multiset{x}
    ensures forall y :: y in r ==> y in s || y == x
  {
    if s == [] then [x]
    else if s[0].at >= x.at then
      assert s == [s[0]] + s[1..];
      [s[0]] + Insert(s[1..], x)
    else [x] + s
  }

  lemma {:induction false} InsertNewestFirst(s: seq<News.Article>, x: News.Article)
    requires NewestFirst(s)
    ensures NewestFirst(Insert(s, x))
  {
    if s != [] && s[0].at >= x.at {
      var t := Insert(s[1..], x);
      InsertNewestFirst(s[1..], x);
      var r := [s[0]] + t;
      forall i, j | 0 <= i < j < |r| ensures r[i].at >= r[j].at {
        if i == 0 {
          assert r[j] in t;
          assert r[j] in s[1..] || r[j] == x;
        }
      }
    }
  }

  /** `sorted(artigos, key=dt, reverse=True)`: a stable insertion sort,
      newest first. */
  function SortNewestFirst(s: seq<News.Article>): (r: seq<News.Article>)
    ensures |r| == |s|
    ensures multiset(r) == multiset(s)
  {
    if s == [] then []
    else
      assert s == s[..|s| - 1] + [s[|s| - 1]];
      Insert(SortNewestFirst(s[..|s| - 1]), s[|s| - 1])
  }

  lemma {:induction false} SortIsNewestFirst(s: seq<News.Article>)
    ensures NewestFirst(SortNewestFirst(s))
  {
    if s != [] {
      SortIsNewestFirst(s[..|s| - 1]);
      InsertNewestFirst(SortNewestFirst(s[..|s| - 1]), s[|s| - 1]);
    }
  }

  /** The articles published at instant `t`, in their order in `s`. */
  function AtTime(s: seq<News.Article>, t: int): seq<News.Article> {
    if s == [] then [] else (if s[0].at == t then [s[0]] else []) + AtTime(s[1..], t)
  }

  lemma AtTimeCons(a: News.Article, rest: seq<News.Article>, t: int)
    ensures AtTime([a] + rest, t) == (if a.at == t then [a] else []) + AtTime(rest, t)
  {
    var r := [a] + rest;
    assert r[0] == a && r[1..] == rest;
  }

  lemma {:induction false} AtTimeAppend(a: seq<News.Article>, b: seq<News.Article>, t: int)
    ensures AtTime(a + b, t) == AtTime(a, t) + AtTime(b, t)
  {
    if a == [] {
      assert a + b == b;
    } else {
      var head := if a[0].at == t then [a[0]] else [];
      assert a + b == [a[0]] + (a[1..] + b);
      AtTimeCons(a[0], a[1..] + b, t);
      AtTimeAppend(a[1..], b, t);
      assert AtTime(a, t) == head + AtTime(a[1..], t);
      assert head + (AtTime(a[1..], t) + AtTime(b, t)) == (head + AtTime(a[1..], t)) + AtTime(b, t);
    }
  }

  /** Appending one article adds it to the end of its instant's list. */
  lemma AtTimeSnoc(init: seq<News.Article>, last: News.Article, t: int)
    ensures AtTime(init + [last], t) == AtTime(init, t) + (if last.at == t then [last] else [])
  {
    AtTimeAppend(init, [last], t);
    AtTimeCons(last, [], t);
    assert [last] + [] == [last];
    assert (if last.at == t then [last] else []) + [] == (if last.at == t then [last] else []);
  }

  lemma {:induction false} AtTimeNone(s: seq<News.Article>, t: int)
    requires forall i :: 0 <= i < |s| ==> s[i].at < t
    ensures AtTime(s, t) == []
  {
    if s != [] {
      AtTimeNone(s[1..], t);
    }
  }

  /** An article older than the head of `s` goes in front of it. */
  lemma InsertInFront(s: seq<News.Article>, x: News.Article, t: int)
    requires NewestFirst(s) && s != [] && s[0].at < x.at
    ensures AtTime(Insert(s, x), t) == AtTime(s, t) + (if x.at == t then [x] else [])
  {
    assert Insert(s, x) == [x] + s;
    AtTimeCons(x, s, t);
    if x.at == t {
      forall i | 0 <= i < |s| ensures s[i].at < t {
        assert s[i].at <= s[0].at;
      }
      AtTimeNone(s, t);
      assert [x] + [] == [] + [x];
    } else {
      assert [] + AtTime(s, t) == AtTime(s, t) + [];
    }
  }

  /** An article no newer than the head of `s` goes behind it. */
  lemma InsertBehind(s: seq<News.Article>, x: News.Article, t: int)
    requires s != [] && s[0].at >= x.at
    requires AtTime(Insert(s[1..], x), t) == AtTime(s[1..], t) + (if x.at == t then [x] else [])
    ensures AtTime(Insert(s, x), t) == AtTime(s, t) + (if x.at == t then [x] else [])
  {
    var head := if s[0].at == t then [s[0]] else [];
    var mine := if x.at == t then [x] else [];
    var rest := Insert(s[1..], x);
    assert Insert(s, x) == [s[0]] + rest;
    AtTimeCons(s[0], rest, t);
    assert AtTime(s, t) == head + AtTime(s[1..], t);
    assert head + (AtTime(s[1..], t) + mine) == (head + AtTime(s[1..], t)) + mine;
  }

  lemma {:induction false} InsertAtTime(s: seq<News.Article>, x: News.Article, t: int)
    requires NewestFirst(s)
    ensures AtTime(Insert(s, x), t) == AtTime(s, t) + (if x.at == t then [x] else [])
  {
    if s == [] {
      assert AtTime([x], t) == (if x.at == t then [x] else []) + AtTime([], t);
    } else if s[0].at >= x.at {
      assert NewestFirst(s[1..]);
      InsertAtTime(s[1..], x, t);
      InsertBehind(s, x, t);
    } else {
      InsertInFront(s, x, t);
    }
  }

  /** The sort is stable: the articles sharing any one instant come out in
      feed order. */
  lemma {:induction false} SortIsStable(s: seq<News.Article>, t: int)
    ensures AtTime(SortNewestFirst(s), t) == AtTime(s, t)
  {
    if s != [] {
      var init, last := s[..|s| - 1], s[|s| - 1];
      var sorted := SortNewestFirst(init);
      var mine := if last.at == t then [last] else [];
      assert SortNewestFirst(s) == Insert(sorted, last);
      assert AtTime(Insert(sorted, last), t) == AtTime(init, t) + mine by {
        SortIsStable(init, t);
        SortIsNewestFirst(init);
        InsertAtTime(sorted, last, t);
      }
      assert s == init + [last];
      AtTimeSnoc(init, last, t);
    }
  }

  /** `sorted(...)[:12]`. */
  function Newest(arts: seq<News.Article>): (r: seq<News.Article>)
    ensures |r| == if |arts| < Shown then |arts| else Shown
  {
    News.Take(SortNewestFirst(arts), Shown)
  }

  lemma SplitSorted(s: seq<News.Article>, k: nat)
    requires NewestFirst(s) && k <= |s|
    ensures forall a, b :: a in s[k..] && b in s[..k] ==> a.at <= b.at
  {
    forall a, b | a in s[k..] && b in s[..k] ensures a.at <= b.at {
      var ia :| 0 <= ia < |s[k..]| && s[k..][ia] == a;
      var ib :| 0 <= ib < k && s[..k][ib] == b;
      assert s[ib] == b && s[k + ia] == a;
    }
  }

  /** The shown articles and the rest of the sorted list together are the
      input. */
  lemma NewestAndRest(arts: seq<News.Article>)
    ensures var s := SortNewestFirst(arts);
      multiset(arts) == multiset(Newest(arts)) + multiset(s[|Newest(arts)|..])
  {
    var s := SortNewestFirst(arts);
    var k := |Newest(arts)|;
    assert Newest(arts) == s[..k];
    assert s == s[..k] + s[k..];
  }

  /** The listing shows `min(12, n)` articles drawn from the input (see
      `Newest`), newest first, and no article left out is more recent than
      any shown. */
  lemma NewestSelection(arts: seq<News.Article>)
    ensures NewestFirst(Newest(arts))
    ensures multiset(Newest(arts)) <= multiset(arts)
    ensures forall a, b :: a in multiset(arts) - multiset(Newest(arts)) && b in Newest(arts) ==> a.at <= b.at
  {
    var s := SortNewestFirst(arts);
    var r := Newest(arts);
    var k := |r|;
    SortIsNewestFirst(arts);
    assert r == s[..k];
    NewestAndRest(arts);
    SplitSorted(s, k);
  }

  /** Among equally recent articles, the ones shown are the first of them
      in feed order. */
  lemma NewestTiesInFeedOrder(arts: seq<News.Article>, t: int)
    ensures var shown, all := AtTime(Newest(arts), t), AtTime(arts, t);
      |shown| <= |all| && shown == all[..|shown|]
  {
    var s := SortNewestFirst(arts);
    var k := |Newest(arts)|;
    assert Newest(arts) == s[..k];
    assert s == s[..k] + s[k..];
    AtTimeAppend(s[..k], s[k..], t);
    SortIsStable(arts, t);
  }

  // ---------------------------------------------------------------------------
  // Source host
  // ---------------------------------------------------------------------------

  predicate HasDoubleSlash(url: string) {
    exists i :: 0 <= i < |url| - 1 && url[i] == '/' && url[i + 1] == '/'
  }

  lemma {:induction false} TwoSlashesCounted(url: string, i: nat)
    requires i < |url| - 1 && url[i] == '/' && url[i + 1] == '/'
    ensures Occurrences(url, '/') >= 2
  {
    if i > 0 {
      TwoSlashesCounted(url[1..], i - 1);
    } else {
      assert url[1..][0] == '/';
    }
  }

  /** `url.split('/')[2] if '//' in url else ''`: the third '/'-separated
      field of an address that contains "//"; never holds a '/'. */
  function Source(url: string): (r: string)
    ensures '/' !in r
    ensures !HasDoubleSlash(url) ==> r == []
  {
    if HasDoubleSlash(url) then
      var i :| 0 <= i < |url| - 1 && url[i] == '/' && url[i + 1] == '/';
      TwoSlashesCounted(url, i);
      SplitOn(url, '/')[2]
    else []
  }

  lemma {:induction false} SplitAfterField(a: string, b: string, sep: char)
    requires sep !in a
    ensures SplitOn(a + [sep] + b, sep) == [a] + SplitOn(b, sep)
  {
    if a != [] {
      SplitAfterField(a[1..], b, sep);
      var s := a + [sep] + b;
      assert s[1..] == a[1..] + [sep] + b;
      assert [a[0]] + a[1..] == a;
    } else {
      assert a + [sep] + b == [sep] + b;
    }
  }

  lemma {:induction false} SplitOfField(a: string, sep: char)
    requires sep !in a
    ensures SplitOn(a, sep) == [a]
  {
    if a != [] {
      SplitOfField(a[1..], sep);
      assert [a[0]] + a[1..] == a;
    }
  }

  /** For an address `scheme://host/...` (or `scheme://host`) the source is
      the host. */
  lemma SourceIsHost(scheme: string, host: string, path: string)
    requires '/' !in scheme && '/' !in host
    requires path == [] || path[0] == '/'
    ensures Source(scheme + "//" + host + path) == host
  {
    var url := scheme + "//" + host + path;
    var rest := host + path;
    assert url[|scheme|] == '/' && url[|scheme| + 1] == '/';
    assert HasDoubleSlash(url);
    assert SplitOn(url, '/') == [scheme] + SplitOn(['/'] + rest, '/') by {
      assert url == scheme + ['/'] + (['/'] + rest);
      SplitAfterField(scheme, ['/'] + rest, '/');
    }
    assert SplitOn(['/'] + rest, '/') == [[]] + SplitOn(rest, '/') by {
      assert ['/'] + rest == [] + ['/'] + rest;
      SplitAfterField([], rest, '/');
    }
    assert SplitOn(rest, '/')[0] == host by {
      if path == [] {
        assert rest == host;
        SplitOfField(host, '/');
      } else {
        assert rest == host + ['/'] + path[1..];
        SplitAfterField(host, path[1..], '/');
      }
    }
    assert Source(url) == SplitOn(url, '/')[2];
  }

  // ---------------------------------------------------------------------------
  // The /prever response
  // ---------------------------------------------------------------------------

  datatype Listing = Listing(title: string, url: string, at: int, source: string)

  datatype Meta = Meta(
    topic: string, days: int, filtered: bool,
    yearFrom: Option<int>, yearTo: Option<int>,
    seriesTotal: int, articlesTotal: int)

  datatype Response = Response(series: seq<Analytics.Point>, articles: seq<Listing>, meta: Meta)

  /** `x or None` for a year bound. */
  function SetOrNone(y: int): (r: Option<int>)
    ensures r.None? <==> y == 0
    ensures r.Some? ==> r.value == y
  {
    if y == 0 then None else Some(y)
  }

  function ListingOf(a: News.Article): (l: Listing)
    ensures l.title == a.title && l.url == a.url && l.at == a.at && l.source == Source(a.url)
  {
    Listing(a.title, a.url, a.at, Source(a.url))
  }

  /** A year bound as received: `int(x or 0)` of the body's value, or a value
      `int()` rejects. */
  datatype YearArg = YearNumber(n: int) | YearNotNumber

  const YearNotInteger := "ValueError: invalid literal for int()"

  /** The article instants handed to the series builder. */
  function Stamps(arts: seq<News.Article>): (st: seq<Option<int>>)
    ensures |st| == |arts|
    ensures forall i :: 0 <= i < |arts| ==> st[i] == Some(arts[i].at)
  {
    seq(|arts|, i requires 0 <= i < |arts| => Some(arts[i].at))
  }

  /** One point per day of the `days` days ending `today`, in date order,
      each counting the instants that fall on its day. */
  predicate DailyCounts(series: seq<Analytics.Point>, stamps: seq<Option<int>>, days: int, today: int) {
    && |series| == days
    && forall i :: 0 <= i < |series| ==>
         && series[i].date == today - days + 1 + i
         && series[i].count == Analytics.CountOnDay(stamps, series[i].date)
  }

  /** The listings of the newest twelve of `kept`, in that order. */
  predicate NewestListed(listings: seq<Listing>, kept: seq<News.Article>) {
    && |listings| == |Newest(kept)|
    && forall i :: 0 <= i < |listings| ==> listings[i] == ListingOf(Newest(kept)[i])
  }

  /** The body of the response once the topic and the year bounds are
      known. */
  method Respond(topic: string, days: int, from: int, to: int, fetched: seq<News.Article>, today: int)
    returns (resp: Response)
    requires Analytics.MinDays <= days <= Analytics.MaxDays
    ensures var kept := FilterByYear(fetched, from, to);
      var m := resp.meta;
      && m == Meta(topic, days, YearFilterOn(from, to), SetOrNone(from), SetOrNone(to), days, |resp.articles|)
      && DailyCounts(resp.series, Stamps(kept), days, today)
      && Analytics.SeriesTotal(resp.series) <= |kept| <= |fetched|
      && NewestListed(resp.articles, kept)
      && |resp.articles| == if |kept| < Shown then |kept| else Shown
  {
    var kept := FilterByYear(fetched, from, to);
    var stamps := Stamps(kept);
    var series := Analytics.BuildSeries(stamps, Analytics.Whole(days), today);
    Analytics.SeriesCountsEveryArticleOnce(series, stamps, today);
    var newest := Newest(kept);
    var listings := seq(|newest|, i requires 0 <= i < |newest| => ListingOf(newest[i]));
    var meta := Meta(topic, days, YearFilterOn(from, to), SetOrNone(from), SetOrNone(to), |series|, |listings|);
    resp := Response(series, listings, meta);
  }

  /** `/prever`: both year bounds are converted first, and a value `int()`
      rejects raises before the topic is looked at. Then the topic check; the
      fetched articles (`fetched`, already limited by the news service) are
      filtered by year when asked, the series counts them per day over the
      clamped number of days, and the twelve newest are listed with their
      source host. */
  method Prever(
    rawTopic: Option<string>, dias: Analytics.DaysArg, yearFrom: YearArg, yearTo: YearArg,
    fetched: seq<News.Article>, today: int) returns (r: Result<Response>)
    ensures r.Err? <==>
      yearFrom.YearNotNumber? || yearTo.YearNotNumber? || rawTopic.None? || IsBlank(rawTopic.value)
    ensures (yearFrom.YearNotNumber? || yearTo.YearNotNumber?) ==> r == Err(YearNotInteger)
    ensures yearFrom.YearNumber? && yearTo.YearNumber? && r.Err? ==> r.error == MissingTopic
    ensures r.Ok? ==>
      var from, to := yearFrom.n, yearTo.n;
      var kept := FilterByYear(fetched, from, to);
      var days := Analytics.ClampDays(dias);
      var m := r.value.meta;
      && m.topic == Strip(rawTopic.value)
      && m.days == days == m.seriesTotal
      && m.filtered == YearFilterOn(from, to)
      && m.yearFrom == SetOrNone(from) && m.yearTo == SetOrNone(to)
      && DailyCounts(r.value.series, Stamps(kept), days, today)
      && Analytics.SeriesTotal(r.value.series) <= |kept| <= |fetched|
      && NewestListed(r.value.articles, kept)
      && m.articlesTotal == |r.value.articles| == (if |kept| < Shown then |kept| else Shown)
  {
    if yearFrom.YearNotNumber? || yearTo.YearNotNumber? {
      return Err(YearNotInteger);
    }
    var topic := TopicOf(rawTopic);
    if topic.Err? {
      return Err(topic.error);
    }
    var resp := Respond(topic.value, Analytics.ClampDays(dias), yearFrom.n, yearTo.n, fetched, today);
    r := Ok(resp);
  }
}
